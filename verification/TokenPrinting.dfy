/** Printing tokens and tokenizing what was printed: which text makes which token, of every kind. */
module TokenPrinting {
  import opened Wrappers
  import opened GoStrings
  import opened Lexer
  import I = Interpolation
  import M = Matching
  import W = Wrapping
  import C = Coverage

  /** The three ways to write a string. */
  datatype Style = Double | Single | Verbatim

  function QuoteOf(style: Style): char {
    if style == Single then '\'' else '"'
  }

  /** A token to be printed. */
  datatype Symbol =
    | Mark(kind: TokenKind)                // an operator, a bracket or a keyword
    | Name(text: string)                   // an identifier
    | Integer(n: nat)
    | Decimal(whole: string, fraction: string, mark: string, exponent: string)  // the mark with its sign
    | Literal(style: Style, text: string)  // a string, by its value
    | Interpolated(parts: seq<Part>)

  function KeywordOf(kind: TokenKind): string {
    match kind
    case TokenTrue => "true"
    case TokenFalse => "false"
    case TokenNull => "null"
    case TokenReturn => "return"
    case TokenIf => "if"
    case TokenElse => "else"
    case TokenVar => "var"
    case TokenNew => "new"
    case _ => ""
  }

  function OperatorText(kind: TokenKind): string {
    match kind
    case TokenPlus => "+"
    case TokenMinus => "-"
    case TokenStar => "*"
    case TokenSlash => "/"
    case TokenPercent => "%"
    case TokenEq => "=="
    case TokenNe => "!="
    case TokenLt => "<"
    case TokenLe => "<="
    case TokenGt => ">"
    case TokenGe => ">="
    case TokenAnd => "&&"
    case TokenOr => "||"
    case TokenNot => "!"
    case TokenDot => "."
    case TokenComma => ","
    case TokenColon => ":"
    case TokenQuestion => "?"
    case TokenQuestionDot => "?."
    case TokenQuestionBracket => "?["
    case TokenCoalesce => "??"
    case TokenAssign => "="
    case TokenArrow => "=>"
    case TokenInc => "++"
    case TokenDec => "--"
    case TokenLParen => "("
    case TokenRParen => ")"
    case TokenLBracket => "["
    case TokenRBracket => "]"
    case TokenLBrace => "{"
    case TokenRBrace => "}"
    case TokenSemicolon => ";"
    case _ => ""
  }

  /** The text of each operator, bracket and keyword. */
  function MarkText(kind: TokenKind): string {
    if Wordlike(kind) then KeywordOf(kind) else OperatorText(kind)
  }

  predicate Wordlike(kind: TokenKind) {
    kind in {TokenTrue, TokenFalse, TokenNull, TokenReturn, TokenIf, TokenElse, TokenVar, TokenNew}
  }

  /** Whole runes of an identifier. */
  predicate IdentRunes(u: Unicode, text: string) {
    text == ""
    || (var (r, w) := DecodeRune(text); IdentRune(u, r) && r != RUNE_ERROR && IdentRunes(u, text[w..]))
  }

  const KEYWORDS: set<string> := {"true", "false", "null", "return", "if", "else", "var", "new"}

  /** An identifier that is no keyword. A table that calls white space a letter does not make it one. */
  predicate IdentText(u: Unicode, text: string) {
    && text != "" && IdentRunes(u, text) && text !in KEYWORDS
    && var (r, _) := DecodeRune(text); (r == '_' as int || IsLetter(u, r)) && !IsSpace(r)
  }

  predicate Printable(u: Unicode, symbol: Symbol) {
    match symbol
    case Mark(kind) => MarkText(kind) != ""
    case Name(text) => IdentText(u, text)
    case Integer(n) => n <= MAX_INT64
    case Decimal(whole, fraction, mark, exponent) =>
      && AllDigits(whole) && AllDigits(fraction) && AllDigits(exponent) && ExponentMark(mark)
      && (whole != "" || fraction != "") && (fraction != "" || exponent != "")
    case Literal(_, _) => true
    case Interpolated(parts) => I.Printable(parts)
  }

  /** How a string holds one byte of its value. */
  function EscapeByte(style: Style, c: char): string {
    if style == Verbatim then (if c == '"' then "\"\"" else [c])
    else if c == QuoteOf(style) || c == '\\' then ['\\', c]
    else
      match c
      case '\n' => "\\n"
      case '\r' => "\\r"
      case '\t' => "\\t"
      case '\0' => "\\0"
      case _ => [c]
  }

  function EscapeText(style: Style, text: string): string {
    if text == "" then "" else EscapeByte(style, text[0]) + EscapeText(style, text[1..])
  }

  /** A string from its opening quote on. */
  function QuotedText(style: Style, text: string): string {
    [QuoteOf(style)] + EscapeText(style, text) + [QuoteOf(style)]
  }

  function Mantissa(whole: string, fraction: string): string {
    whole + if fraction == "" then "" else "." + fraction
  }

  predicate ExponentMark(mark: string) {
    mark in ["e", "e+", "e-", "E", "E+", "E-"]
  }

  function Exponent(mark: string, exponent: string): string {
    if exponent == "" then "" else mark + exponent
  }

  function PrintSymbol(symbol: Symbol): string {
    match symbol
    case Mark(kind) => MarkText(kind)
    case Name(text) => text
    case Integer(n) => Itoa(n)
    case Decimal(whole, fraction, mark, exponent) => Mantissa(whole, fraction) + Exponent(mark, exponent)
    case Literal(style, text) => (if style == Verbatim then "@" else "") + QuotedText(style, text)
    case Interpolated(parts) => "$\"" + I.Print(parts) + "\""
  }

  function Kind(symbol: Symbol): TokenKind {
    match symbol
    case Mark(kind) => kind
    case Name(_) => TokenIdent
    case Integer(_) => TokenNumber
    case Decimal(_, _, _, _) => TokenNumber
    case Literal(_, _) => TokenString
    case Interpolated(_) => TokenInterpolated
  }

  function LiteralOf(symbol: Symbol): Lexer.Literal {
    match symbol
    case Mark(TokenTrue) => BoolLiteral(true)
    case Mark(TokenFalse) => BoolLiteral(false)
    case Mark(TokenNull) => NullLiteral
    case Integer(n) => IntLiteral(n)
    case Decimal(_, _, _, _) => DoubleLiteral(PrintSymbol(symbol))
    case Literal(_, text) => StringLiteral(text)
    case _ => NoLiteral
  }

  /** The token of a symbol printed `offset` bytes into the source. A verbatim string's `@` is no part
      of its token. */
  function TokenOf(symbol: Symbol, offset: nat): Token {
    if symbol.Literal? && symbol.style == Verbatim then
      Token(TokenString, QuotedText(Verbatim, symbol.text), StringLiteral(symbol.text), offset + 1)
    else Token(Kind(symbol), PrintSymbol(symbol), LiteralOf(symbol), offset)
  }

  // --- One token ---

  /** What makes a longer operator, a number or a comment of an operator. */
  predicate Joins(kind: TokenKind, c: char) {
    match kind
    case TokenPlus => c == '+'
    case TokenMinus => c == '-'
    case TokenSlash => c in "/*"
    case TokenAssign => c in "=>"
    case TokenNot => c == '='
    case TokenLt => c == '='
    case TokenGt => c == '='
    case TokenDot => IsAsciiDigit(c)
    case TokenQuestion => c in ".[?"
    case _ => false
  }

  predicate WordEnds(u: Unicode, rest: string) {
    rest == "" || !IdentRune(u, DecodeRune(rest).0)
  }

  /** `rest` cannot be taken for more of the symbol before it. */
  predicate EndsBefore(u: Unicode, symbol: Symbol, rest: string) {
    var c := PeekAt(rest, 0);
    match symbol
    case Mark(kind) => if Wordlike(kind) then WordEnds(u, rest) else !Joins(kind, c)
    case Name(_) => WordEnds(u, rest)
    case Integer(_) => !IsAsciiDigit(c) && c !in "eE" && !(c == '.' && IsAsciiDigit(PeekAt(rest, 1)))
    case Decimal(whole, _, _, exponent) =>
      && !IsAsciiDigit(c) && (exponent == "" ==> c !in "eE")
      && (whole == "" && exponent == "" ==> !(c == '.' && IsAsciiDigit(PeekAt(rest, 1))))
    case Literal(style, _) => EndsThere(style, rest)
    case Interpolated(_) => true
  }

  /** What may follow a string: in a verbatim one a second quote would double the first. */
  predicate EndsThere(style: Style, rest: string) {
    style == Verbatim ==> rest == "" || rest[0] != '"'
  }

  /** White space ends every symbol. */
  lemma SpaceEnds(u: Unicode, symbol: Symbol, rest: string)
    requires rest != "" && rest[0] in " \t\n\r"
    ensures EndsBefore(u, symbol, rest)
  {
  }

  lemma {:induction false} IdentLengthOf(u: Unicode, text: string, rest: string)
    requires IdentRunes(u, text) && WordEnds(u, rest)
    ensures IdentLength(u, text + rest) == |text|
    decreases |text|
  {
    hide DecodeRune, IdentRune;
    var s := text + rest;
    if text == "" {
      assert s == rest;
    } else {
      var (r, w) := DecodeRune(text);
      RuneExtends(text, rest);
      assert s[w..] == text[w..] + rest;
      IdentLengthOf(u, text[w..], rest);
    }
  }

  lemma WordOf(u: Unicode, text: string, rest: string)
    requires text != "" && IdentRunes(u, text) && WordEnds(u, rest)
    requires DecodeRune(text).0 == '_' as int || IsLetter(u, DecodeRune(text).0)
    ensures NextToken(u, text + rest) == Ok(Identifier(text))
  {
    hide Identifier, IdentLength;
    var s := text + rest;
    IdentLengthOf(u, text, rest);
    RuneExtends(text, rest);
    assert s[0] == text[0];
    assert Punctuation(s) == None;
    assert s[..|text|] == text;
  }

  lemma MarkOf(u: Unicode, kind: TokenKind, rest: string)
    requires MarkText(kind) != "" && EndsBefore(u, Mark(kind), rest)
    ensures NextToken(u, MarkText(kind) + rest) == Ok(TokenOf(Mark(kind), 0))
  {
    hide Identifier, TokenOf, IdentRunes, WordEnds;
    if Wordlike(kind) {
      KeywordText(kind);
      KeywordRunes(u, kind);
      WordOf(u, MarkText(kind), rest);
    } else {
      OperatorOf(kind, rest);
      OperatorToken(kind);
      OperatorTokens(u, MarkText(kind) + rest);
    }
  }

  /** The tokenizer's way into an operator. */
  lemma OperatorTokens(u: Unicode, s: string)
    requires s != "" && Punctuation(s).Some?
    ensures NextToken(u, s) == Ok(Token(Punctuation(s).value.0, Punctuation(s).value.1, NoLiteral, 0))
  {
    hide Punctuation;
  }

  lemma KeywordText(kind: TokenKind)
    requires Wordlike(kind)
    ensures var text := MarkText(kind);
            && text != "" && (forall k | 0 <= k < |text| :: IsAsciiLetter(text[k]))
            && Identifier(text) == TokenOf(Mark(kind), 0)
  {
    KeywordLetters(kind);
    KeywordToken(kind);
  }

  lemma KeywordLetters(kind: TokenKind)
    requires Wordlike(kind)
    ensures var text := MarkText(kind); text != "" && (forall k | 0 <= k < |text| :: IsAsciiLetter(text[k]))
  {
  }

  lemma KeywordToken(kind: TokenKind)
    requires Wordlike(kind)
    ensures Identifier(MarkText(kind)) == TokenOf(Mark(kind), 0)
  {
  }

  lemma {:induction false} LettersAreRunes(u: Unicode, text: string)
    requires forall k | 0 <= k < |text| :: IsAsciiLetter(text[k])
    ensures IdentRunes(u, text)
  {
    if text != "" {
      LettersAreRunes(u, text[1..]);
    }
  }

  lemma KeywordRunes(u: Unicode, kind: TokenKind)
    requires Wordlike(kind)
    ensures var text := MarkText(kind); text != "" && IdentRunes(u, text) && IsLetter(u, DecodeRune(text).0)
  {
    KeywordText(kind);
    LettersAreRunes(u, MarkText(kind));
  }

  lemma OperatorToken(kind: TokenKind)
    requires !Wordlike(kind)
    ensures TokenOf(Mark(kind), 0) == Token(kind, MarkText(kind), NoLiteral, 0)
  {
  }

  lemma OperatorOf(kind: TokenKind, rest: string)
    requires MarkText(kind) != "" && !Wordlike(kind) && !Joins(kind, PeekAt(rest, 0))
    ensures Punctuation(MarkText(kind) + rest) == Some((kind, MarkText(kind)))
  {
    var text, s := MarkText(kind), MarkText(kind) + rest;
    assert s[0] == text[0];
    assert PeekAt(s, 1) == if |text| > 1 then text[1] else PeekAt(rest, 0);
  }

  lemma IntegerOf(u: Unicode, n: nat, rest: string)
    requires n <= MAX_INT64 && EndsBefore(u, Integer(n), rest)
    ensures NextToken(u, Itoa(n) + rest) == Ok(TokenOf(Integer(n), 0))
  {
    hide Itoa, DecimalValue, ParseInteger, DigitsFrom;
    var text, s := Itoa(n), Itoa(n) + rest;
    DecimalRoundTrip(n);
    assert forall k | 0 <= k < |text| :: s[k] == text[k];
    assert PeekAt(s, |text|) == PeekAt(rest, 0) && PeekAt(s, |text| + 1) == PeekAt(rest, 1);
    DigitsEnd(s, 0, |text|);
    assert IsAsciiDigit(text[0]) && s[0] == text[0];
    assert s[..|text|] == text;
    NumberTokens(u, s);
  }

  lemma {:induction false} DigitsEnd(s: string, i: nat, n: nat)
    requires i <= n <= |s| && (forall k | i <= k < n :: IsAsciiDigit(s[k])) && (n < |s| ==> !IsAsciiDigit(s[n]))
    ensures DigitsFrom(s, i) == n
    decreases n - i
  {
    if i < n {
      DigitsEnd(s, i + 1, n);
    }
  }

  lemma MantissaOf(whole: string, fraction: string, tail: string)
    requires AllDigits(whole) && AllDigits(fraction) && (whole != "" || fraction != "")
    requires !IsAsciiDigit(PeekAt(tail, 0))
    requires whole == "" || fraction == "" ==> !(PeekAt(tail, 0) == '.' && IsAsciiDigit(PeekAt(tail, 1)))
    ensures var s := Mantissa(whole, fraction) + tail;
            && s != "" && (IsAsciiDigit(s[0]) || (s[0] == '.' && IsAsciiDigit(PeekAt(s, 1))))
            && MantissaEnd(s) == (|Mantissa(whole, fraction)|, fraction != "")
  {
    hide DigitsFrom;
    var m := Mantissa(whole, fraction);
    var s := m + tail;
    assert PeekAt(s, |m|) == PeekAt(tail, 0) && PeekAt(s, |m| + 1) == PeekAt(tail, 1);
    if fraction == "" {
      DigitsEnd(s, 0, |whole|);
    } else {
      assert forall k | 0 <= k < |fraction| :: s[|whole| + 1 + k] == fraction[k];
      DigitsEnd(s, |whole| + 1, |m|);
      if whole == "" {
        assert s[1] == fraction[0];
      } else {
        DigitsEnd(s, 0, |whole|);
      }
    }
  }

  lemma ExponentOf(mantissa: string, mark: string, exponent: string, rest: string)
    requires AllDigits(exponent) && exponent != "" && ExponentMark(mark) && (rest == "" || !IsAsciiDigit(rest[0]))
    ensures var s := mantissa + Exponent(mark, exponent) + rest;
            var end := |mantissa|;
            var signed := if PeekAt(s, end + 1) in "+-" then end + 2 else end + 1;
            && PeekAt(s, end) in "eE" && IsAsciiDigit(PeekAt(s, signed))
            && signed <= |s| && DigitsFrom(s, signed) == |mantissa + Exponent(mark, exponent)|
  {
    hide DigitsFrom, PeekAt, AllDigits, Exponent;
    ExponentParts(mantissa, mark, exponent, rest);
    DigitsAfter(mantissa + mark, exponent, rest);
    MarkAfter(mantissa, mark, exponent + rest);
  }

  lemma ExponentParts(mantissa: string, mark: string, exponent: string, rest: string)
    requires exponent != ""
    ensures var s := mantissa + Exponent(mark, exponent) + rest;
            s == mantissa + (mark + (exponent + rest)) && s == (mantissa + mark) + (exponent + rest)
    ensures |mantissa + Exponent(mark, exponent)| == |mantissa + mark + exponent|
  {
  }

  lemma MarkAfter(mantissa: string, mark: string, tail: string)
    requires ExponentMark(mark) && tail != "" && IsAsciiDigit(tail[0])
    ensures var s := mantissa + (mark + tail);
            var signed := if PeekAt(s, |mantissa| + 1) in "+-" then |mantissa| + 2 else |mantissa| + 1;
            && PeekAt(s, |mantissa|) in "eE" && signed == |mantissa + mark| && PeekAt(s, signed) == tail[0]
  {
    var s := mantissa + (mark + tail);
    assert s[|mantissa|] == mark[0];
    assert s[|mantissa| + 1] == if |mark| == 1 then tail[0] else mark[1];
    assert s[|mantissa| + |mark|] == tail[0];
  }

  lemma DigitsAfter(before: string, digits: string, rest: string)
    requires AllDigits(digits) && digits != "" && (rest == "" || !IsAsciiDigit(rest[0]))
    ensures var s := before + (digits + rest);
            && IsAsciiDigit(s[|before|]) && IsAsciiDigit((digits + rest)[0])
            && DigitsFrom(s, |before|) == |before + digits|
  {
    var s := before + (digits + rest);
    assert forall k | 0 <= k < |digits| :: s[|before| + k] == digits[k];
    DigitsEnd(s, |before|, |before + digits|);
  }

  lemma NumberOf(u: Unicode, whole: string, fraction: string, mark: string, exponent: string, rest: string)
    requires Printable(u, Decimal(whole, fraction, mark, exponent))
    requires EndsBefore(u, Decimal(whole, fraction, mark, exponent), rest)
    ensures var text := Mantissa(whole, fraction) + Exponent(mark, exponent);
            var s := text + rest;
            && s != "" && (IsAsciiDigit(s[0]) || (s[0] == '.' && IsAsciiDigit(PeekAt(s, 1))))
            && NumberToken(s) == Ok(Token(TokenNumber, text, DoubleLiteral(text), 0))
  {
    hide DigitsFrom, MantissaEnd, Mantissa, NumberToken, Exponent;
    var m, e := Mantissa(whole, fraction), Exponent(mark, exponent);
    var s := m + e + rest;
    assert s == m + (e + rest);
    ExponentStart(mark, exponent);
    MantissaOf(whole, fraction, e + rest);
    assert s[..|m + e|] == m + e;
    if exponent != "" {
      ExponentOf(m, mark, exponent, rest);
      NumberWithExponent(s, |m|, fraction != "");
    } else {
      assert PeekAt(s, |m|) == PeekAt(rest, 0);
      NumberWithFraction(s, |m|);
    }
  }

  lemma ExponentStart(mark: string, exponent: string)
    requires ExponentMark(mark)
    ensures var e := Exponent(mark, exponent); if exponent == "" then e == "" else e != "" && e[0] in "eE"
  {
  }

  lemma NumberWithExponent(s: string, end: nat, fraction: bool)
    requires s != "" && (IsAsciiDigit(s[0]) || (s[0] == '.' && IsAsciiDigit(PeekAt(s, 1))))
    requires MantissaEnd(s) == (end, fraction) && PeekAt(s, end) in "eE"
    ensures var signed := if PeekAt(s, end + 1) in "+-" then end + 2 else end + 1;
            IsAsciiDigit(PeekAt(s, signed)) ==>
              var text := s[..DigitsFrom(s, signed)];
              NumberToken(s) == Ok(Token(TokenNumber, text, DoubleLiteral(text), 0))
  {
    hide MantissaEnd, DigitsFrom;
  }

  lemma NumberWithFraction(s: string, end: nat)
    requires s != "" && (IsAsciiDigit(s[0]) || (s[0] == '.' && IsAsciiDigit(PeekAt(s, 1))))
    requires MantissaEnd(s) == (end, true) && PeekAt(s, end) !in "eE"
    ensures NumberToken(s) == Ok(Token(TokenNumber, s[..end], DoubleLiteral(s[..end]), 0))
  {
    hide MantissaEnd, DigitsFrom;
  }

  lemma DecimalOf(u: Unicode, symbol: Symbol, rest: string)
    requires symbol.Decimal? && Printable(u, symbol) && EndsBefore(u, symbol, rest)
    ensures NextToken(u, PrintSymbol(symbol) + rest) == Ok(TokenOf(symbol, 0))
  {
    hide NextToken, NumberToken, Mantissa, Exponent;
    var Decimal(whole, fraction, mark, exponent) := symbol;
    NumberOf(u, whole, fraction, mark, exponent, rest);
    NumberTokens(u, PrintSymbol(symbol) + rest);
  }

  /** The tokenizer's way into a number. */
  lemma NumberTokens(u: Unicode, s: string)
    requires s != "" && (IsAsciiDigit(s[0]) || (s[0] == '.' && IsAsciiDigit(PeekAt(s, 1))))
    ensures NextToken(u, s) == NumberToken(s)
  {
    hide NumberToken;
  }

  /** A byte a string holds as it is. */
  predicate Raw(style: Style, c: char) {
    EscapeByte(style, c) == [c]
  }

  /** The raw bytes at the start of a string's value. */
  function RawPrefix(style: Style, text: string): (n: nat)
    ensures n <= |text| && forall k | 0 <= k < n :: Raw(style, text[k])
    ensures n < |text| ==> !Raw(style, text[n])
  {
    if text == "" || !Raw(style, text[0]) then 0 else 1 + RawPrefix(style, text[1..])
  }

  function Body(style: Style, s: string): Result<(string, nat), LexError> {
    StringBody(s, QuoteOf(style), style == Verbatim)
  }

  lemma RawStep(style: Style, s: string)
    requires s != "" && Raw(style, s[0])
    ensures var w := DecodeRune(s).1;
            !AtQuote(s, QuoteOf(style), style == Verbatim)
            && StringStep(s, QuoteOf(style), style == Verbatim) == Ok((s[..w], w))
  {
  }

  /** Runes of raw bytes go into the body as they are, and stop before the next special byte. */
  lemma {:induction false} BodyOverRaw(style: Style, raw: string, tail: string)
    requires (forall k | 0 <= k < |raw| :: Raw(style, raw[k])) && (tail == "" || tail[0] as int < 0x80)
    ensures Body(style, raw + tail) == Append(raw, |raw|, Body(style, tail))
    decreases |raw|
  {
    hide Body, Raw, StringStep, AtQuote;
    var s := raw + tail;
    if raw == "" {
      assert s == tail;
      AppendAssociates("", 0, "", 0, Body(style, tail));
    } else {
      var (r, w) := DecodeRune(s);
      assert s[0] == raw[0];
      assert tail != "" ==> s[|raw|] == tail[0];
      assert s[w..] == raw[w..] + tail && s[..w] == raw[..w];
      RawStep(style, s);
      BodyStep(style, s);
      BodyOverRaw(style, raw[w..], tail);
      AppendAssociates(raw[..w], w, raw[w..], |raw| - w, Body(style, tail));
      assert raw[..w] + raw[w..] == raw;
    }
  }

  lemma BodyStep(style: Style, s: string)
    requires s != "" && !AtQuote(s, QuoteOf(style), style == Verbatim)
    requires StringStep(s, QuoteOf(style), style == Verbatim).Ok?
    ensures var (text, n) := StringStep(s, QuoteOf(style), style == Verbatim).value;
            Body(style, s) == Append(text, n, Body(style, s[n..]))
  {
  }

  lemma RawIsKept(style: Style, c: char)
    requires Raw(style, c)
    ensures EscapeByte(style, c) == [c]
  {
  }

  lemma {:induction false} EscapeOverRaw(style: Style, text: string, n: nat)
    requires n <= |text| && forall k | 0 <= k < n :: Raw(style, text[k])
    ensures EscapeText(style, text) == text[..n] + EscapeText(style, text[n..])
  {
    hide EscapeByte, Raw;
    if n > 0 {
      var more := text[1..];
      EscapeOverRaw(style, more, n - 1);
      RawIsKept(style, text[0]);
      assert more[n - 1..] == text[n..];
      assert text[..n] == [text[0]] + more[..n - 1];
      assert [text[0]] + (more[..n - 1] + EscapeText(style, text[n..])) == text[..n] + EscapeText(style, text[n..]);
    } else {
      assert text[..0] == "" && text[0..] == text;
    }
  }

  lemma EscapeStep(style: Style, c: char, tail: string)
    requires !Raw(style, c)
    ensures var s := EscapeByte(style, c) + tail;
            && !AtQuote(s, QuoteOf(style), style == Verbatim)
            && StringStep(s, QuoteOf(style), style == Verbatim) == Ok(([c], 2)) && s[2..] == tail
  {
    var s := EscapeByte(style, c) + tail;
    assert s[0] == EscapeByte(style, c)[0];
    assert s[1] == s[1..][0] == EscapeByte(style, c)[1];
  }

  /** A string's value is its raw bytes up to the first special one, that one, and the rest. */
  lemma {:induction false} BodyOverEscaped(style: Style, text: string, tail: string)
    requires tail == "" || tail[0] as int < 0x80
    ensures Body(style, EscapeText(style, text) + tail)
         == Append(text, |EscapeText(style, text)|, Body(style, tail))
    decreases |text|, 3
  {
    hide Body, StringStep, EscapeByte, EscapeText, Raw, RawPrefix, AtQuote, Append;
    var n := RawPrefix(style, text);
    var raw, more := text[..n], text[n..];
    EscapeOverRaw(style, text, n);
    assert EscapeText(style, text) + tail == raw + (EscapeText(style, more) + tail);
    EscapedStartsInAscii(style, more, tail);
    BodyOverRaw(style, raw, EscapeText(style, more) + tail);
    BodyOverSpecial(style, more, tail);
    AppendAssociates(raw, n, more, |EscapeText(style, more)|, Body(style, tail));
    assert raw + more == text;
  }

  lemma {:induction false} BodyOverSpecial(style: Style, more: string, tail: string)
    requires (tail == "" || tail[0] as int < 0x80) && (more == "" || !Raw(style, more[0]))
    ensures Body(style, EscapeText(style, more) + tail)
         == Append(more, |EscapeText(style, more)|, Body(style, tail))
    decreases |more|, if more == "" then 0 else 2
  {
    hide Body, StringStep, EscapeByte, Raw, AtQuote;
    if more == "" {
      assert EscapeText(style, more) + tail == tail;
      AppendAssociates("", 0, "", 0, Body(style, tail));
    } else {
      var c, left := more[0], EscapeText(style, more[1..]) + tail;
      assert EscapeText(style, more) + tail == EscapeByte(style, c) + left;
      EscapeStep(style, c, left);
      BodyStep(style, EscapeByte(style, c) + left);
      BodyOverEscaped(style, more[1..], tail);
      assert [c] + more[1..] == more;
      EscapedWidth(style, c);
      AppendAssociates([c], 2, more[1..], |EscapeText(style, more[1..])|, Body(style, tail));
    }
  }

  lemma BodyOfEscaped(style: Style, text: string, rest: string)
    requires EndsThere(style, rest)
    ensures Body(style, EscapeText(style, text) + [QuoteOf(style)] + rest) == Ok((text, |EscapeText(style, text)| + 1))
  {
    hide Body, EscapeText;
    var tail := [QuoteOf(style)] + rest;
    assert EscapeText(style, text) + [QuoteOf(style)] + rest == EscapeText(style, text) + tail;
    BodyAtQuote(style, rest);
    BodyOverEscaped(style, text, tail);
    assert text + "" == text;
  }

  lemma EscapedWidth(style: Style, c: char)
    requires !Raw(style, c)
    ensures |EscapeByte(style, c)| == 2
  {
  }

  lemma BodyAtQuote(style: Style, rest: string)
    requires EndsThere(style, rest)
    ensures Body(style, [QuoteOf(style)] + rest) == Ok(("", 1))
  {
  }

  lemma EscapedStartsInAscii(style: Style, more: string, tail: string)
    requires (more == "" || !Raw(style, more[0])) && (tail == "" || tail[0] as int < 0x80)
    ensures var s := EscapeText(style, more) + tail; s == "" || s[0] as int < 0x80
  {
  }

  /** What each escape stands for, in either plain style. */
  function EscapedByte(c: char): Option<char> {
    match c
    case 'n' => Some('\n')
    case 'r' => Some('\r')
    case 't' => Some('\t')
    case '0' => Some('\0')
    case '\\' => Some('\\')
    case '"' => Some('"')
    case '\'' => Some('\'')
    case _ => None
  }

  lemma EscapeIsRead(style: Style, c: char, tail: string)
    requires style != Verbatim && EscapedByte(c).Some?
    ensures Body(style, ['\\', c] + tail) == Append([EscapedByte(c).value], 2, Body(style, tail))
  {
    var s := ['\\', c] + tail;
    assert s[1..][0] == c && s[2..] == tail;
    BodyStep(style, s);
  }

  lemma QuotedOf(style: Style, text: string, rest: string, offset: nat)
    requires EndsThere(style, rest)
    ensures StringToken(QuotedText(style, text) + rest, QuoteOf(style), style == Verbatim, offset)
         == Ok(Token(TokenString, QuotedText(style, text), StringLiteral(text), offset))
  {
    hide StringBody;
    var s := QuotedText(style, text) + rest;
    BodyOfEscaped(style, text, rest);
    assert s[1..] == EscapeText(style, text) + [QuoteOf(style)] + rest;
    assert s[..|QuotedText(style, text)|] == QuotedText(style, text);
  }

  /** The tokenizer's two ways into a string. */
  lemma StringTokens(u: Unicode, s: string)
    requires s != ""
    ensures s[0] in "\"'" ==> NextToken(u, s) == StringToken(s, s[0], false, 0)
    ensures s[0] == '@' && |s| > 1 && s[1] == '"' ==> NextToken(u, s) == StringToken(s[1..], '"', true, 1)
  {
    hide StringToken;
  }

  lemma LiteralSymbol(style: Style, text: string)
    ensures var quoted := QuotedText(style, text);
            && PrintSymbol(Symbol.Literal(style, text)) == (if style == Verbatim then "@" else "") + quoted
            && TokenOf(Symbol.Literal(style, text), 0)
               == Token(TokenString, quoted, StringLiteral(text), if style == Verbatim then 1 else 0)
  {
    hide EscapeText;
  }

  lemma TextOf(u: Unicode, style: Style, text: string, rest: string)
    requires EndsThere(style, rest)
    ensures NextToken(u, PrintSymbol(Symbol.Literal(style, text)) + rest) == Ok(TokenOf(Symbol.Literal(style, text), 0))
  {
    hide StringToken, NextToken, EscapeText, PrintSymbol, TokenOf;
    LiteralSymbol(style, text);
    var quoted := QuotedText(style, text);
    var s := PrintSymbol(Symbol.Literal(style, text)) + rest;
    StringTokens(u, s);
    if style == Verbatim {
      assert s[1..] == quoted + rest;
      assert s[1] == s[1..][0];
      QuotedOf(style, text, rest, 1);
    } else {
      assert s == quoted + rest;
      QuotedOf(style, text, rest, 0);
    }
  }

  lemma NameIsNoKeyword(text: string)
    requires text !in KEYWORDS
    ensures Identifier(text) == Token(TokenIdent, text, NoLiteral, 0)
  {
  }

  lemma SymbolOf(u: Unicode, symbol: Symbol, rest: string)
    requires Printable(u, symbol) && EndsBefore(u, symbol, rest)
    ensures NextToken(u, PrintSymbol(symbol) + rest) == Ok(TokenOf(symbol, 0))
    ensures PrintSymbol(symbol) != ""
  {
    hide NextToken, IdentRunes, WordEnds;
    match symbol
    case Mark(kind) => MarkOf(u, kind, rest);
    case Name(text) =>
      WordOf(u, text, rest);
      NameIsNoKeyword(text);
    case Integer(n) => IntegerOf(u, n, rest);
    case Decimal(_, _, _, _) => DecimalOf(u, symbol, rest);
    case Literal(style, text) => TextOf(u, style, text, rest);
    case Interpolated(parts) => I.TokenOfPrint(u, parts, rest);
  }

  // --- A whole source ---

  /** Symbols with the gaps before, between and after them. */
  function Render(symbols: seq<Symbol>, gaps: seq<string>): string
    requires |gaps| == |symbols| + 1
  {
    if symbols == [] then gaps[0]
    else gaps[0] + (PrintSymbol(symbols[0]) + Render(symbols[1..], gaps[1..]))
  }

  /** Gaps are spaces and comments; only the last may end inside a line comment; and what follows a
      symbol, a gap or the next symbol, cannot be taken for more of it. */
  ghost predicate Readable(u: Unicode, symbols: seq<Symbol>, gaps: seq<string>)
    decreases |symbols|
  {
    && |gaps| == |symbols| + 1
    && if symbols == [] then C.TriviaRun(gaps[0], |gaps[0]|)
       else
         && C.TriviaGap(gaps[0])
         && Printable(u, symbols[0])
         && Readable(u, symbols[1..], gaps[1..])
         && EndsBefore(u, symbols[0], Render(symbols[1..], gaps[1..]))
  }

  function Spaces(n: nat): seq<string> {
    if n == 0 then [" "] else [" "] + Spaces(n - 1)
  }

  /** One space everywhere keeps any symbols apart. */
  lemma {:induction false} SpacesKeepApart(u: Unicode, symbols: seq<Symbol>)
    requires forall k | 0 <= k < |symbols| :: Printable(u, symbols[k])
    ensures |Spaces(|symbols|)| == |symbols| + 1 && Readable(u, symbols, Spaces(|symbols|))
    ensures Render(symbols, Spaces(|symbols|)) != "" && Render(symbols, Spaces(|symbols|))[0] == ' '
    decreases |symbols|
  {
    hide Printable, PrintSymbol, EndsBefore, C.TriviaGap, C.TriviaRun;
    SpaceIsGap();
    if symbols != [] {
      SpacesKeepApart(u, symbols[1..]);
      assert Spaces(|symbols|)[1..] == Spaces(|symbols| - 1);
      SpaceEnds(u, symbols[0], Render(symbols[1..], Spaces(|symbols| - 1)));
    }
  }

  lemma SpaceIsGap()
    ensures C.TriviaGap(" ") && C.TriviaRun(" ", 1)
  {
    assert " "[1..] == "";
    assert C.TriviaPiece(" ", 1);
  }

  function TokensOf(symbols: seq<Symbol>, gaps: seq<string>, base: nat): seq<Token>
    requires |gaps| == |symbols| + 1
  {
    var start := base + |gaps[0]|;
    if symbols == [] then [Token(TokenEOF, "", NoLiteral, start)]
    else [TokenOf(symbols[0], start)] + TokensOf(symbols[1..], gaps[1..], start + |PrintSymbol(symbols[0])|)
  }

  /** A gap is skipped whole, whatever follows it. */
  lemma {:induction false} GapIsSkipped(gap: string, rest: string)
    requires TriviaLength(gap) == Ok(|gap|) && !W.TriviaEndsOpen(gap) && TriviaLength(rest) == Ok(0)
    ensures TriviaLength(gap + rest) == Ok(|gap|)
    decreases |gap|
  {
    hide CommentLength, TriviaLength, DecodeRune;
    var s := gap + rest;
    if gap == "" {
      assert s == rest;
    } else {
      var (r, w) := DecodeRune(gap);
      if IsSpace(r) {
        TriviaSpace(gap);
        RuneExtends(gap, rest);
        assert s[w..] == gap[w..] + rest;
        GapIsSkipped(gap[w..], rest);
        TriviaSpace(s);
      } else if r == '/' as int {
        TriviaComment(gap);
        var n := CommentLength(gap).value;
        RuneExtends(gap, rest);
        CommentIsSkipped(gap, rest);
        assert s[n..] == gap[n..] + rest;
        GapIsSkipped(gap[n..], rest);
        TriviaComment(s);
      } else {
        TriviaStops(gap);
      }
    }
  }

  lemma CommentIsSkipped(s: string, x: string)
    requires |s| >= 2 && CommentLength(s).Ok? && CommentLength(s).value != 0
    requires !(CommentLength(s).value == |s| && s[1] == '/')
    ensures CommentLength(s + x) == CommentLength(s)
  {
    assert (s + x)[2..] == s[2..] + x && (s + x)[1] == s[1];
    if s[1] == '/' {
      M.LineTailExtends(s[2..], x);
    } else {
      M.BlockTailExtends(s[2..], x);
    }
  }

  lemma MarkStartsSolid(kind: TokenKind)
    requires MarkText(kind) != ""
    ensures Solid(MarkText(kind)[0]) && (MarkText(kind)[0] == '/' ==> kind == TokenSlash)
  {
  }

  lemma SymbolStartsSolid(u: Unicode, symbol: Symbol)
    requires Printable(u, symbol) && !symbol.Name?
    ensures var text := PrintSymbol(symbol);
            text != "" && Solid(text[0]) && (text[0] == '/' ==> symbol == Mark(TokenSlash))
  {
    hide Itoa, MarkText, EscapeText, I.Print, Identifier, IdentText;
    match symbol
    case Mark(kind) => MarkStartsSolid(kind);
    case Integer(n) => assert IsAsciiDigit(Itoa(n)[0]);
    case Decimal(whole, fraction, mark, exponent) => MantissaOf(whole, fraction, Exponent(mark, exponent));
    case Literal(style, _) => assert PrintSymbol(symbol)[0] == if style == Verbatim then '@' else QuoteOf(style);
    case Interpolated(_) => assert PrintSymbol(symbol)[0] == '$';
  }

  /** A symbol's text is not taken for white space or a comment. */
  lemma SymbolIsNoTrivia(u: Unicode, symbol: Symbol, rest: string)
    requires Printable(u, symbol) && EndsBefore(u, symbol, rest)
    ensures TriviaLength(PrintSymbol(symbol) + rest) == Ok(0)
  {
    hide TriviaLength;
    var text := PrintSymbol(symbol);
    var s := text + rest;
    if symbol.Name? {
      RuneExtends(text, rest);
      TriviaStops(s);
    } else {
      SymbolStartsSolid(u, symbol);
      hide PrintSymbol, Printable, EndsBefore;
      assert s[0] == text[0];
      if symbol == Mark(TokenSlash) {
        SlashIsNoComment(u, rest);
        TriviaComment(s);
      } else {
        TriviaStops(s);
      }
    }
  }

  lemma SlashIsNoComment(u: Unicode, rest: string)
    requires EndsBefore(u, Mark(TokenSlash), rest)
    ensures var s := PrintSymbol(Mark(TokenSlash)) + rest; s[0] == '/' && CommentLength(s) == Ok(0)
  {
    var s := "/" + rest;
    assert |s| > 1 ==> s[1] == rest[0];
  }

  /** TOKENIZING INVERTS PRINTING, whatever spaces and comments separate the tokens: every printed token
      is read back with its kind, its text, its value and its offset. */
  lemma {:induction false} ScanOfPrint(u: Unicode, symbols: seq<Symbol>, gaps: seq<string>, base: nat)
    requires Readable(u, symbols, gaps)
    ensures Scan(u, Render(symbols, gaps), base) == Ok(TokensOf(symbols, gaps, base))
    decreases |symbols|
  {
    hide NextToken, TriviaLength, Scan, Printable, PrintSymbol, TokenOf, Prepend, EndsBefore, C.TriviaRun, C.TriviaGap;
    if symbols == [] {
      C.RunIsSkipped(gaps[0]);
      W.ScanAtEnd(u, gaps[0], base);
    } else {
      var gap, text, rest := gaps[0], PrintSymbol(symbols[0]), Render(symbols[1..], gaps[1..]);
      var next := base + |gap| + |text|;
      SymbolIsNoTrivia(u, symbols[0], rest);
      C.GapIsSkipped(gap);
      GapIsSkipped(gap, text + rest);
      SymbolOf(u, symbols[0], rest);
      TokenOfLexeme(symbols[0]);
      ScanRound(u, gap, text, rest, TokenOf(symbols[0], 0), base);
      ScanOfPrint(u, symbols[1..], gaps[1..], next);
      PrependOk(TokenOf(symbols[0], base + |gap|), TokensOf(symbols[1..], gaps[1..], next));
    }
  }

  lemma PrependOk(t: Token, more: seq<Token>)
    ensures Prepend([t], Ok(more)) == Ok([t] + more)
  {
  }

  /** One round of the tokenizer on a printed token. */
  lemma ScanRound(u: Unicode, gap: string, text: string, rest: string, t: Token, base: nat)
    requires text != "" && TriviaLength(gap + (text + rest)) == Ok(|gap|)
    requires NextToken(u, text + rest) == Ok(t) && t.End() == |text|
    ensures Scan(u, gap + (text + rest), base)
         == Prepend([t.(offset := base + |gap| + t.offset)], Scan(u, rest, base + |gap| + |text|))
  {
    hide NextToken, TriviaLength;
    var s := gap + (text + rest);
    assert s[|gap|..] == text + rest && s[|gap| + |text|..] == rest;
  }

  lemma TokenOfLexeme(symbol: Symbol)
    ensures TokenOf(symbol, 0).End() == |PrintSymbol(symbol)|
    ensures forall offset: nat ::
              TokenOf(symbol, 0).(offset := offset + TokenOf(symbol, 0).offset) == TokenOf(symbol, offset)
  {
  }

  // --- Outside a wrapper ---

  /** White space can be trimmed from neither end of the text, with `after` behind it. */
  predicate Trimmed(core: string, after: string) {
    core != "" ==> !IsSpace(DecodeRune(core + after).0) && !IsSpace(DecodeLastRune(core).0)
  }

  /** LEX OF A BARE TEXT: printed symbols with any white space around them, not starting with an `@`, are
      lexed as exactly those symbols, with no wrapper; offsets count from the first byte that is no white
      space. */
  lemma LexOfPrint(u: Unicode, symbols: seq<Symbol>, gaps: seq<string>, a: string, b: string)
    requires Readable(u, symbols, gaps) && SpaceRun(a) && SpaceRun(b)
    requires Trimmed(Render(symbols, gaps), b) && !("@" <= Render(symbols, gaps))
    ensures Lex(u, a + Render(symbols, gaps) + b) == Ok((TokensOf(symbols, gaps, 0), FormBare))
  {
    hide Scan, TrimSpace, TokensOf, SpaceRun, LexWrapped, TriviaLength, EndsBefore, Printable;
    TrimOfSpaced(a, Render(symbols, gaps), b);
    ScanOfPrint(u, symbols, gaps, 0);
  }

  /** A text with an `@` that opens no wrapper is refused, and what is accepted has the form it opens with. */
  lemma LexForms(u: Unicode, text: string)
    ensures var source := TrimSpace(text);
            var r := Lex(u, text);
            && ("@" <= source && !("@(" <= source) && !("@{" <= source) ==> r == Err(InvalidWrapper))
            && (r.Ok? ==> r.value.1 == if "@(" <= source then FormExpression
                                       else if "@{" <= source then FormBlock else FormBare)
            && (r.Ok? && r.value.1 == FormBare ==> !("@" <= source))
  {
    hide TrimSpace, LexWrapped, Scan;
    W.FormsAreKept(u, TrimSpace(text));
  }

  // --- Unicode escapes ---

  function HexDigit(n: nat, upper: bool): char
    requires n < 16
  {
    if n < 10 then ('0' as int + n) as char else ((if upper then 'A' else 'a') as int + (n - 10)) as char
  }

  /** The four digits of a `\u` escape in either case, the highest first, and what they stand for. */
  lemma UnicodeEscapeOf(digits: seq<(nat, bool)>, rest: string)
    requires |digits| == 4 && forall k | 0 <= k < 4 :: digits[k].0 < 16
    ensures var (a, b, c, d) := (digits[0], digits[1], digits[2], digits[3]);
            DecodeEscape(['u', HexDigit(a.0, a.1), HexDigit(b.0, b.1), HexDigit(c.0, c.1), HexDigit(d.0, d.1)] + rest)
            == Ok((EncodeRune(a.0 * 0x1000 + b.0 * 0x100 + c.0 * 0x10 + d.0), 5))
  {
    hide EncodeRune;
    forall k | 0 <= k < 4 ensures HexValue(HexDigit(digits[k].0, digits[k].1)) == Some(digits[k].0) {
      HexDigitValue(digits[k].0, digits[k].1);
    }
  }

  lemma HexDigitValue(n: nat, upper: bool)
    requires n < 16
    ensures HexValue(HexDigit(n, upper)) == Some(n)
  {
  }

  /** The text of a `\u` escape decodes to the character it names; half a surrogate pair names none. */
  lemma EncodedRuneDecodes(value: nat)
    requires value < 0x1_0000
    ensures DecodeRune(EncodeRune(value))
         == (if 0xD800 <= value <= 0xDFFF then RUNE_ERROR else value, |EncodeRune(value)|)
  {
    hide DecodeRune;
    if value < 0x80 {
      OneByteDecodes(value);
    } else if value < 0x800 {
      TwoBytesDecode(value / 0x40, value % 0x40);
    } else {
      var v := if 0xD800 <= value <= 0xDFFF then RUNE_ERROR else value;
      ThreeBytesDecode(v / 0x1000, v / 0x40 % 0x40, v % 0x40);
    }
  }

  lemma OneByteDecodes(a: nat)
    requires a < 0x80
    ensures DecodeRune([a as char]) == (a, 1)
  {
  }

  lemma TwoBytesDecode(a: nat, b: nat)
    requires 2 <= a < 0x20 && b < 0x40
    ensures DecodeRune([(0xC0 + a) as char, (0x80 + b) as char]) == (a * 0x40 + b, 2)
  {
  }

  lemma ThreeBytesDecode(a: nat, b: nat, c: nat)
    requires a < 0x10 && b < 0x40 && c < 0x40
    requires a * 0x40 + b >= 0x20 && !(a == 0xD && b >= 0x20)
    ensures DecodeRune([(0xE0 + a) as char, (0x80 + b) as char, (0x80 + c) as char]) == (a * 0x1000 + b * 0x40 + c, 3)
  {
  }
}
