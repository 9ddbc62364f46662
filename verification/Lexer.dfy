/** What internal/expression/lex.go computes, as functions.

    Every function looks at a SUFFIX of the source and answers with a number of bytes counted
    from its start, so a position in the source never appears. The loops of the original are the
    methods of `Scanner`, each proved to compute one of these functions. */
module Lexer {
  import opened Wrappers
  import opened GoStrings

  datatype Form = FormBare | FormExpression | FormBlock

  datatype TokenKind =
    | TokenEOF | TokenIdent | TokenNumber | TokenString | TokenInterpolated
    | TokenTrue | TokenFalse | TokenNull
    | TokenPlus | TokenMinus | TokenStar | TokenSlash | TokenPercent
    | TokenEq | TokenNe | TokenLt | TokenLe | TokenGt | TokenGe
    | TokenAnd | TokenOr | TokenNot | TokenDot | TokenComma | TokenColon
    | TokenQuestion | TokenQuestionDot | TokenQuestionBracket | TokenCoalesce
    | TokenAssign | TokenArrow | TokenInc | TokenDec
    | TokenLParen | TokenRParen | TokenLBracket | TokenRBracket | TokenLBrace | TokenRBrace
    | TokenSemicolon | TokenReturn | TokenIf | TokenElse | TokenVar | TokenNew

  /** A literal's value. A double keeps its text: parsing it is `strconv.ParseFloat`'s business. */
  datatype Literal =
    | NoLiteral
    | BoolLiteral(b: bool)
    | NullLiteral
    | IntLiteral(n: int)
    | DoubleLiteral(text: string)
    | StringLiteral(text: string)

  datatype Token = Token(kind: TokenKind, lexeme: string, literal: Literal, offset: nat) {
    function End(): nat {
      offset + |lexeme|
    }
  }

  datatype LexError =
    | UnclosedWrapper
    | UnexpectedAfterExpression
    | InvalidWrapper
    | UnterminatedString
    | UnterminatedComment
    | UnexpectedCharacter
    | InvalidExponent
    | InvalidNumber
    | UnclosedHole
    | UnmatchedBrace
    | InvalidUnicodeEscape
    | InvalidEscape

  /** A count found `n` bytes further on, or the same failure. */
  function Shift(n: nat, r: Result<nat, LexError>): Result<nat, LexError> {
    match r
    case Ok(k) => Ok(n + k)
    case Err(e) => Err(e)
  }

  predicate NewlineByte(c: char) {
    c == '\n' || c == '\r'
  }

  /** The byte at `i`, or a zero byte past the end, as `peek` and `peekAt` read it. */
  function PeekAt(s: string, i: nat): char {
    if i < |s| then s[i] else '\0'
  }

  // --- Strings and comments as the bracket matcher sees them ---

  /** The bytes up to and including the closing quote; `s` starts after the opening one. */
  function StringTail(s: string, quote: char, verbatim: bool): (r: Result<nat, LexError>)
    ensures r.Ok? ==> 1 <= r.value <= |s|
  {
    if s == "" then Err(UnterminatedString)
    else if s[0] == quote then
      if verbatim && |s| > 1 && s[1] == '"' then Shift(2, StringTail(s[2..], quote, verbatim)) else Ok(1)
    else if !verbatim && s[0] == '\\' then
      if |s| < 2 then Err(UnterminatedString) else Shift(2, StringTail(s[2..], quote, verbatim))
    else if !verbatim && NewlineByte(s[0]) then Err(UnterminatedString)
    else Shift(1, StringTail(s[1..], quote, verbatim))
  }

  /** The bytes before the next line feed, or all of them. */
  function LineTail(s: string): (n: nat)
    ensures n <= |s|
    ensures n < |s| ==> s[n] == '\n'
  {
    if s == "" || s[0] == '\n' then 0 else 1 + LineTail(s[1..])
  }

  /** The bytes up to and including the next comment closer. */
  function BlockTail(s: string): (r: Result<nat, LexError>)
    ensures r.Ok? ==> 2 <= r.value <= |s|
  {
    if |s| < 2 then Err(UnterminatedComment)
    else if s[0] == '*' && s[1] == '/' then Ok(2)
    else Shift(1, BlockTail(s[1..]))
  }

  /** The length of the comment that `s`, which starts with a slash, opens: zero for none. */
  function CommentLength(s: string): (r: Result<nat, LexError>)
    ensures r.Ok? ==> r.value <= |s| && (r.value == 0 || r.value >= 2)
  {
    if |s| < 2 then Ok(0)
    else if s[1] == '/' then Ok(2 + LineTail(s[2..]))
    else if s[1] == '*' then Shift(2, BlockTail(s[2..]))
    else Ok(0)
  }

  // --- The bracket matcher and the interpolation splitter, which call each other ---

  datatype Part = Text(text: string) | Hole(source: string)

  type Pieces = (seq<Part>, nat)

  /** The bytes the matcher steps over when `s` does not start with one of its brackets: a whole
      string, comment or interpolated string, or else one byte. */
  function Skip(s: string): (r: Result<nat, LexError>)
    requires s != ""
    ensures r.Ok? ==> 1 <= r.value <= |s|
    decreases |s|, 0
  {
    if s[0] == '"' || s[0] == '\'' then Shift(1, StringTail(s[1..], s[0], false))
    else if s[0] == '$' && PeekAt(s, 1) == '"' then
      match Split(s[2..], "")
      case Err(e) => Err(e)
      case Ok((_, q)) => Ok(3 + q)
    else if s[0] == '@' && PeekAt(s, 1) == '"' then Shift(2, StringTail(s[2..], '"', true))
    else if s[0] == '/' then
      match CommentLength(s)
      case Err(e) => Err(e)
      case Ok(n) => Ok(if n == 0 then 1 else n)
    else Ok(1)
  }

  /** The index of the bracket that brings `depth` back to zero. */
  function Closer(s: string, left: char, right: char, depth: int): (r: Result<nat, LexError>)
    ensures r.Ok? ==> r.value < |s| && s[r.value] == right
    decreases |s|, 1
  {
    if s == "" then Err(UnclosedWrapper)
    else if s[0] == left then Shift(1, Closer(s[1..], left, right, depth + 1))
    else if s[0] == right then
      if depth - 1 == 0 then Ok(0) else Shift(1, Closer(s[1..], left, right, depth - 1))
    else
      match Skip(s)
      case Err(e) => Err(e)
      case Ok(n) => Shift(n, Closer(s[n..], left, right, depth))
  }

  // One step of the matcher at a time, so that a proof need not unfold the definition.

  lemma CloserEnd(left: char, right: char, depth: int)
    ensures Closer("", left, right, depth) == Err(UnclosedWrapper)
  {
  }

  lemma CloserLeft(s: string, left: char, right: char, depth: int)
    requires s != "" && s[0] == left
    ensures Closer(s, left, right, depth) == Shift(1, Closer(s[1..], left, right, depth + 1))
  {
  }

  lemma CloserRight(s: string, left: char, right: char, depth: int)
    requires s != "" && s[0] == right && left != right
    ensures Closer(s, left, right, depth)
         == if depth == 1 then Ok(0) else Shift(1, Closer(s[1..], left, right, depth - 1))
  {
  }

  lemma CloserSkip(s: string, left: char, right: char, depth: int)
    requires s != "" && s[0] != left && s[0] != right
    ensures Skip(s).Err? ==> Closer(s, left, right, depth) == Err(Skip(s).error)
    ensures Skip(s).Ok? ==>
              Closer(s, left, right, depth) == Shift(Skip(s).value, Closer(s[Skip(s).value..], left, right, depth))
  {
  }

  /** Literal text collected so far, as a part: none when there is none. */
  function Flush(literal: string): seq<Part> {
    if literal == "" then [] else [Text(literal)]
  }

  /** More parts, whose closing quote is `n` bytes further on. */
  function Further(parts: seq<Part>, n: nat, r: Result<Pieces, LexError>): Result<Pieces, LexError> {
    match r
    case Ok((more, q)) => Ok((parts + more, n + q))
    case Err(e) => Err(e)
  }

  lemma FurtherAssociates(parts: seq<Part>, n: nat, more: seq<Part>, k: nat, r: Result<Pieces, LexError>)
    ensures Further(parts, n, Further(more, k, r)) == Further(parts + more, n + k, r)
    ensures Further([], 0, r) == r
  {
    if r.Ok? {
      assert parts + (more + r.value.0) == parts + more + r.value.0;
      assert [] + r.value.0 == r.value.0;
    }
  }

  /** One step through an interpolated string body: a hole, or literal text, and its width. */
  function Step(s: string): (r: Result<(Part, nat), LexError>)
    requires s != "" && s[0] != '"'
    ensures r.Ok? ==> 1 <= r.value.1 <= |s|
    decreases |s|, 2
  {
    if s[0] == '{' then
      if PeekAt(s, 1) == '{' then Ok((Text("{"), 2))
      else
        match Closer(s[1..], '{', '}', 1)
        case Err(_) => Err(UnclosedHole)
        case Ok(c) => Ok((Hole(s[1..1 + c]), c + 2))
    else if s[0] == '}' then
      if PeekAt(s, 1) == '}' then Ok((Text("}"), 2)) else Err(UnmatchedBrace)
    else if s[0] == '\\' then
      if |s| < 2 then Err(UnterminatedString)
      else
        match DecodeEscape(s[1..])
        case Err(e) => Err(e)
        case Ok((text, w)) => Ok((Text(text), 1 + w))
    else if NewlineByte(s[0]) then Err(UnterminatedString)
    else Ok((Text([s[0]]), 1))
  }

  /** The parts of an interpolated string body, after the literal text already collected, and the
      index of its closing quote. */
  function Split(s: string, literal: string): (r: Result<Pieces, LexError>)
    ensures r.Ok? ==> r.value.1 < |s| && s[r.value.1] == '"'
    decreases |s|, 3
  {
    if s == "" then Err(UnterminatedString)
    else if s[0] == '"' then Ok((Flush(literal), 0))
    else
      match Step(s)
      case Err(e) => Err(e)
      case Ok((Text(text), n)) => Further([], n, Split(s[n..], literal + text))
      case Ok((Hole(source), n)) => Further(Flush(literal) + [Hole(source)], n, Split(s[n..], ""))
  }

  lemma SplitStops(s: string, literal: string)
    ensures s == "" ==> Split(s, literal) == Err(UnterminatedString)
    ensures s != "" && s[0] == '"' ==> Split(s, literal) == Ok((Flush(literal), 0))
    ensures s != "" && s[0] != '"' && Step(s).Err? ==> Split(s, literal) == Err(Step(s).error)
  {
    hide Step;
  }

  lemma SplitStep(s: string, literal: string)
    requires s != "" && s[0] != '"' && Step(s).Ok?
    ensures var (part, n) := Step(s).value;
            && (part.Text? ==> Split(s, literal) == Further([], n, Split(s[n..], literal + part.text)))
            && (part.Hole? ==> Split(s, literal) == Further(Flush(literal) + [part], n, Split(s[n..], "")))
  {
    hide Step;
  }

  // --- Escapes ---

  function HexValue(c: char): Option<nat> {
    if '0' <= c <= '9' then Some(c as nat - '0' as nat)
    else if 'a' <= c <= 'f' then Some(c as nat - 'a' as nat + 10)
    else if 'A' <= c <= 'F' then Some(c as nat - 'A' as nat + 10)
    else None
  }

  /** `string(rune(value))` for a 16-bit value: UTF-8, with a surrogate half as U+FFFD. */
  function EncodeRune(value: nat): string
    requires value < 0x1_0000
  {
    if value < 0x80 then [value as char]
    else if value < 0x800 then [(0xC0 + value / 0x40) as char, (0x80 + value % 0x40) as char]
    else
      var v := if 0xD800 <= value <= 0xDFFF then RUNE_ERROR else value;
      [(0xE0 + v / 0x1000) as char, (0x80 + v / 0x40 % 0x40) as char, (0x80 + v % 0x40) as char]
  }

  /** The text an escape stands for and its width; `s` starts after the backslash. */
  function DecodeEscape(s: string): (r: Result<(string, nat), LexError>)
    ensures r.Ok? ==> 1 <= r.value.1 <= |s|
  {
    if s == "" then Err(InvalidEscape)
    else if s[0] == 'n' then Ok(("\n", 1))
    else if s[0] == 'r' then Ok(("\r", 1))
    else if s[0] == 't' then Ok(("\t", 1))
    else if s[0] == '0' then Ok(("\0", 1))
    else if s[0] in "\\\"'" then Ok(([s[0]], 1))
    else if s[0] == 'u' then
      if |s| < 5 then Err(InvalidUnicodeEscape)
      else
        match (HexValue(s[1]), HexValue(s[2]), HexValue(s[3]), HexValue(s[4]))
        case (Some(a), Some(b), Some(c), Some(d)) => Ok((EncodeRune(((a * 16 + b) * 16 + c) * 16 + d), 5))
        case _ => Err(InvalidUnicodeEscape)
    else Err(InvalidEscape)
  }

  // --- The tokenizer ---

  /** The spaces and comments `s` starts with. */
  function TriviaLength(s: string): (r: Result<nat, LexError>)
    ensures r.Ok? ==> r.value <= |s|
  {
    if s == "" then Ok(0)
    else
      var (r, w) := DecodeRune(s);
      if IsSpace(r) then Shift(w, TriviaLength(s[w..]))
      else if r != '/' as int then Ok(0)
      else
        match CommentLength(s)
        case Err(e) => Err(e)
        case Ok(n) => if n == 0 then Ok(0) else Shift(n, TriviaLength(s[n..]))
  }

  lemma TriviaSpace(s: string)
    requires s != "" && IsSpace(DecodeRune(s).0)
    ensures TriviaLength(s) == Shift(DecodeRune(s).1, TriviaLength(s[DecodeRune(s).1..]))
  {
  }

  lemma TriviaComment(s: string)
    requires s != "" && DecodeRune(s).0 == '/' as int
    ensures CommentLength(s).Err? ==> TriviaLength(s) == Err(CommentLength(s).error)
    ensures CommentLength(s) == Ok(0) ==> TriviaLength(s) == Ok(0)
    ensures CommentLength(s).Ok? && CommentLength(s).value != 0 ==>
              TriviaLength(s) == Shift(CommentLength(s).value, TriviaLength(s[CommentLength(s).value..]))
  {
  }

  lemma TriviaStops(s: string)
    requires s == "" || (!IsSpace(DecodeRune(s).0) && DecodeRune(s).0 != '/' as int)
    ensures TriviaLength(s) == Ok(0)
  {
  }

  /** The operator or bracket `s` starts with. */
  function Punctuation(s: string): (r: Option<(TokenKind, string)>)
    requires s != ""
    ensures r.Some? ==> r.value.1 <= s && r.value.1 != ""
    ensures s[0] == '.' && r.None? ==> IsAsciiDigit(PeekAt(s, 1))
  {
    var next := PeekAt(s, 1);
    match s[0]
    case '+' => if next == '+' then Some((TokenInc, "++")) else Some((TokenPlus, "+"))
    case '-' => if next == '-' then Some((TokenDec, "--")) else Some((TokenMinus, "-"))
    case '*' => Some((TokenStar, "*"))
    case '/' => Some((TokenSlash, "/"))
    case '%' => Some((TokenPercent, "%"))
    case '=' =>
      if next == '=' then Some((TokenEq, "=="))
      else if next == '>' then Some((TokenArrow, "=>"))
      else Some((TokenAssign, "="))
    case '!' => if next == '=' then Some((TokenNe, "!=")) else Some((TokenNot, "!"))
    case '<' => if next == '=' then Some((TokenLe, "<=")) else Some((TokenLt, "<"))
    case '>' => if next == '=' then Some((TokenGe, ">=")) else Some((TokenGt, ">"))
    case '&' => if next == '&' then Some((TokenAnd, "&&")) else None
    case '|' => if next == '|' then Some((TokenOr, "||")) else None
    case '.' => if IsAsciiDigit(next) then None else Some((TokenDot, "."))
    case ',' => Some((TokenComma, ","))
    case ':' => Some((TokenColon, ":"))
    case '?' =>
      if next == '.' then Some((TokenQuestionDot, "?."))
      else if next == '[' then Some((TokenQuestionBracket, "?["))
      else if next == '?' then Some((TokenCoalesce, "??"))
      else Some((TokenQuestion, "?"))
    case '(' => Some((TokenLParen, "("))
    case ')' => Some((TokenRParen, ")"))
    case '[' => Some((TokenLBracket, "["))
    case ']' => Some((TokenRBracket, "]"))
    case '{' => Some((TokenLBrace, "{"))
    case '}' => Some((TokenRBrace, "}"))
    case ';' => Some((TokenSemicolon, ";"))
    case _ => None
  }

  predicate IdentRune(u: Unicode, r: int) {
    r == '_' as int || IsLetter(u, r) || IsDigit(u, r)
  }

  function IdentLength(u: Unicode, s: string): (n: nat)
    ensures n <= |s|
  {
    if s == "" then 0
    else
      var (r, w) := DecodeRune(s);
      if IdentRune(u, r) then w + IdentLength(u, s[w..]) else 0
  }

  function Identifier(lexeme: string): (t: Token)
    ensures t.lexeme == lexeme && t.offset == 0
  {
    match lexeme
    case "true" => Token(TokenTrue, lexeme, BoolLiteral(true), 0)
    case "false" => Token(TokenFalse, lexeme, BoolLiteral(false), 0)
    case "null" => Token(TokenNull, lexeme, NullLiteral, 0)
    case "return" => Token(TokenReturn, lexeme, NoLiteral, 0)
    case "if" => Token(TokenIf, lexeme, NoLiteral, 0)
    case "else" => Token(TokenElse, lexeme, NoLiteral, 0)
    case "var" => Token(TokenVar, lexeme, NoLiteral, 0)
    case "new" => Token(TokenNew, lexeme, NoLiteral, 0)
    case _ => Token(TokenIdent, lexeme, NoLiteral, 0)
  }

  function DigitsFrom(s: string, i: nat): (n: nat)
    requires i <= |s|
    ensures i <= n <= |s|
    ensures forall k | i <= k < n :: IsAsciiDigit(s[k])
    decreases |s| - i
  {
    if i < |s| && IsAsciiDigit(s[i]) then DigitsFrom(s, i + 1) else i
  }

  /** The end of the digits and fraction of a number, and whether there was a fraction. */
  function MantissaEnd(s: string): (r: (nat, bool))
    requires s != "" && (IsAsciiDigit(s[0]) || (s[0] == '.' && IsAsciiDigit(PeekAt(s, 1))))
    ensures 1 <= r.0 <= |s|
    ensures forall k | 0 <= k < r.0 :: IsAsciiDigit(s[k]) || s[k] == '.'
    ensures !r.1 ==> forall k | 0 <= k < r.0 :: IsAsciiDigit(s[k])
  {
    var whole := DigitsFrom(s, if s[0] == '.' then 1 else 0);
    if PeekAt(s, whole) == '.' && IsAsciiDigit(PeekAt(s, whole + 1)) then (DigitsFrom(s, whole + 1), true)
    else (whole, s[0] == '.')
  }

  function NumberToken(s: string): (r: Result<Token, LexError>)
    requires s != "" && (IsAsciiDigit(s[0]) || (s[0] == '.' && IsAsciiDigit(PeekAt(s, 1))))
    ensures r.Ok? ==> r.value.lexeme <= s && r.value.lexeme != "" && r.value.offset == 0 && r.value.kind == TokenNumber
  {
    var (end, fraction) := MantissaEnd(s);
    if PeekAt(s, end) in "eE" then
      var signed := if PeekAt(s, end + 1) in "+-" then end + 2 else end + 1;
      if !IsAsciiDigit(PeekAt(s, signed)) then Err(InvalidExponent)
      else
        var text := s[..DigitsFrom(s, signed)];
        Ok(Token(TokenNumber, text, DoubleLiteral(text), 0))
    else if fraction then Ok(Token(TokenNumber, s[..end], DoubleLiteral(s[..end]), 0))
    else
      var value := DecimalValue(s[..end]);
      if value > MAX_INT64 then Err(InvalidNumber) else Ok(Token(TokenNumber, s[..end], IntLiteral(value), 0))
  }

  function Append(text: string, n: nat, r: Result<(string, nat), LexError>): Result<(string, nat), LexError> {
    match r
    case Ok((more, k)) => Ok((text + more, n + k))
    case Err(e) => Err(e)
  }

  lemma AppendAssociates(text: string, n: nat, more: string, k: nat, r: Result<(string, nat), LexError>)
    ensures Append(text, n, Append(more, k, r)) == Append(text + more, n + k, r)
    ensures Append("", 0, r) == r
  {
    if r.Ok? {
      assert text + (more + r.value.0) == text + more + r.value.0;
      assert "" + r.value.0 == r.value.0;
    }
  }

  /** Whether `s` starts with the quote that ends the string: in a verbatim one, not a doubled quote. */
  predicate AtQuote(s: string, quote: char, verbatim: bool) {
    s != "" && DecodeRune(s).0 == quote as int && !(verbatim && PeekAt(s, 1) == '"')
  }

  /** The text the next bytes of a string body stand for, and their number. */
  function StringStep(s: string, quote: char, verbatim: bool): (r: Result<(string, nat), LexError>)
    requires s != "" && !AtQuote(s, quote, verbatim)
    ensures r.Ok? ==> 1 <= r.value.1 <= |s|
  {
    var (r, w) := DecodeRune(s);
    if r == quote as int then Ok(("\"", 2))
    else if verbatim then Ok((s[..w], w))
    else if r == '\n' as int || r == '\r' as int then Err(UnterminatedString)
    else if r != '\\' as int then Ok((s[..w], w))
    else if w == |s| then Err(UnterminatedString)
    else
      match DecodeEscape(s[w..])
      case Err(e) => Err(e)
      case Ok((text, k)) => Ok((text, w + k))
  }

  /** The decoded body of a string and the bytes up to and including its closing quote; `s` starts
      after the opening one. */
  function StringBody(s: string, quote: char, verbatim: bool): (r: Result<(string, nat), LexError>)
    ensures r.Ok? ==> 1 <= r.value.1 <= |s|
  {
    if s == "" then Err(UnterminatedString)
    else if AtQuote(s, quote, verbatim) then Ok(("", DecodeRune(s).1))
    else
      match StringStep(s, quote, verbatim)
      case Err(e) => Err(e)
      case Ok((text, n)) => Append(text, n, StringBody(s[n..], quote, verbatim))
  }

  /** A string token; `s` starts at the opening quote, `offset` bytes into the token's input. */
  function StringToken(s: string, quote: char, verbatim: bool, offset: nat): (r: Result<Token, LexError>)
    requires s != ""
    ensures r.Ok? ==> r.value.lexeme <= s && r.value.lexeme != "" && r.value.offset == offset
                      && r.value.kind == TokenString
  {
    match StringBody(s[1..], quote, verbatim)
    case Err(e) => Err(e)
    case Ok((text, n)) => Ok(Token(TokenString, s[..1 + n], StringLiteral(text), offset))
  }

  function InterpolatedToken(s: string): (r: Result<Token, LexError>)
    requires |s| >= 2
    ensures r.Ok? ==> r.value.lexeme <= s && r.value.lexeme != "" && r.value.offset == 0
                      && r.value.kind == TokenInterpolated
  {
    match Split(s[2..], "")
    case Err(e) => Err(e)
    case Ok((_, q)) => Ok(Token(TokenInterpolated, s[..3 + q], NoLiteral, 0))
  }

  /** The token `s` starts with, its offset counted from the start of `s`. */
  function NextToken(u: Unicode, s: string): (r: Result<Token, LexError>)
    requires s != ""
    ensures r.Ok? ==> 1 <= r.value.End() <= |s|
  {
    var (r, _) := DecodeRune(s);
    match Punctuation(s)
    case Some((kind, lexeme)) => Ok(Token(kind, lexeme, NoLiteral, 0))
    case None =>
      if IsAsciiDigit(s[0]) || s[0] == '.' then NumberToken(s)
      else if s[0] == '"' || s[0] == '\'' then StringToken(s, s[0], false, 0)
      else if s[0] == '@' && PeekAt(s, 1) == '"' then StringToken(s[1..], '"', true, 1)
      else if s[0] == '$' && PeekAt(s, 1) == '"' then InterpolatedToken(s)
      else if r == '_' as int || IsLetter(u, r) then
        Ok(Identifier(s[..IdentLength(u, s)]))
      else Err(UnexpectedCharacter)
  }

  function Prepend(tokens: seq<Token>, r: Result<seq<Token>, LexError>): Result<seq<Token>, LexError> {
    match r
    case Ok(more) => Ok(tokens + more)
    case Err(e) => Err(e)
  }

  /** The tokens of `s`, which stands `base` bytes into the source. */
  function Scan(u: Unicode, s: string, base: nat): (r: Result<seq<Token>, LexError>)
    ensures r.Ok? ==> r.value != [] && r.value[|r.value| - 1].kind == TokenEOF
    decreases |s|
  {
    match TriviaLength(s)
    case Err(e) => Err(e)
    case Ok(n) =>
      if n == |s| then Ok([Token(TokenEOF, "", NoLiteral, base + n)])
      else
        match NextToken(u, s[n..])
        case Err(e) => Err(e)
        case Ok(t) =>
          Prepend([t.(offset := base + n + t.offset)], Scan(u, s[n + t.End()..], base + n + t.End()))
  }

  /** The wrapper that introduces each form. */
  function Opening(form: Form): string {
    match form
    case FormBare => ""
    case FormExpression => "@("
    case FormBlock => "@{"
  }

  function LeftOf(form: Form): char {
    if form == FormBlock then '{' else '('
  }

  function RightOf(form: Form): char {
    if form == FormBlock then '}' else ')'
  }

  type LexResult = Result<(seq<Token>, Form), LexError>

  function Tokens(r: Result<seq<Token>, LexError>, form: Form): LexResult {
    match r
    case Ok(tokens) => Ok((tokens, form))
    case Err(e) => Err(e)
  }

  function LexWrapped(u: Unicode, source: string, form: Form): LexResult
    requires form != FormBare && Opening(form) <= source
  {
    match Closer(source[2..], LeftOf(form), RightOf(form), 1)
    case Err(e) => Err(e)
    case Ok(c) =>
      if TrimSpace(source[c + 3..]) != "" then Err(UnexpectedAfterExpression)
      else Tokens(Scan(u, source[2..c + 2], 0), form)
  }

  function Lex(u: Unicode, text: string): LexResult {
    var source := TrimSpace(text);
    if "@(" <= source then LexWrapped(u, source, FormExpression)
    else if "@{" <= source then LexWrapped(u, source, FormBlock)
    else if "@" <= source then Err(InvalidWrapper)
    else Tokens(Scan(u, source, 0), FormBare)
  }
}
