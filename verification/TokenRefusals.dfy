/** What the tokenizer refuses, and with which error, wherever in a source it stands. */
module TokenRefusals {
  import opened Wrappers
  import opened GoStrings
  import opened Lexer
  import opened TokenPrinting
  import C = Coverage
  import I = Interpolation

  // --- A refusal behind other tokens ---

  /** Symbols and gaps in front of a text that is neither. */
  function RenderBefore(symbols: seq<Symbol>, gaps: seq<string>, bad: string): string
    requires |gaps| == |symbols| + 1
  {
    if symbols == [] then gaps[0] + bad
    else gaps[0] + (PrintSymbol(symbols[0]) + RenderBefore(symbols[1..], gaps[1..], bad))
  }

  ghost predicate ReadableBefore(u: Unicode, symbols: seq<Symbol>, gaps: seq<string>, bad: string)
    decreases |symbols|
  {
    && |gaps| == |symbols| + 1 && C.TriviaGap(gaps[0])
    && (symbols != [] ==>
          && Printable(u, symbols[0])
          && ReadableBefore(u, symbols[1..], gaps[1..], bad)
          && EndsBefore(u, symbols[0], RenderBefore(symbols[1..], gaps[1..], bad)))
  }

  /** A REFUSAL STANDS BEHIND ANY TOKENS: a text refused as a token is refused behind any printed symbols. */
  lemma {:induction false} RefusedBehind(u: Unicode, symbols: seq<Symbol>, gaps: seq<string>, bad: string, base: nat,
                                         e: LexError)
    requires ReadableBefore(u, symbols, gaps, bad)
    requires bad != "" && TriviaLength(bad) == Ok(0) && NextToken(u, bad) == Err(e)
    ensures Scan(u, RenderBefore(symbols, gaps, bad), base) == Err(e)
    decreases |symbols|
  {
    hide NextToken, TriviaLength, Scan, Printable, PrintSymbol, TokenOf, EndsBefore, C.TriviaGap;
    C.GapIsSkipped(gaps[0]);
    if symbols == [] {
      GapIsSkipped(gaps[0], bad);
      RefusedNext(u, gaps[0], bad, base, e);
    } else {
      var gap, text, rest := gaps[0], PrintSymbol(symbols[0]), RenderBefore(symbols[1..], gaps[1..], bad);
      SymbolIsNoTrivia(u, symbols[0], rest);
      GapIsSkipped(gap, text + rest);
      SymbolOf(u, symbols[0], rest);
      TokenOfLexeme(symbols[0]);
      ScanRound(u, gap, text, rest, TokenOf(symbols[0], 0), base);
      RefusedBehind(u, symbols[1..], gaps[1..], bad, base + |gap| + |text|, e);
    }
  }

  lemma RefusedNext(u: Unicode, gap: string, bad: string, base: nat, e: LexError)
    requires bad != "" && TriviaLength(gap + bad) == Ok(|gap|) && NextToken(u, bad) == Err(e)
    ensures Scan(u, gap + bad, base) == Err(e)
  {
    hide NextToken, TriviaLength;
    assert (gap + bad)[|gap|..] == bad;
  }

  // --- Bytes that start no token ---

  /** Neither an operator, nor the start of a string, a number or a name. */
  predicate StartsNothing(u: Unicode, s: string)
    requires s != ""
  {
    var (c, next, r) := (s[0], PeekAt(s, 1), DecodeRune(s).0);
    && c !in "+-*/%=!<>.,:?()[]{};\"'" && !IsAsciiDigit(c) && r != '_' as int && !IsLetter(u, r)
    && !(c == '&' && next == '&') && !(c == '|' && next == '|')
    && !(c == '@' && next == '"') && !(c == '$' && next == '"')
  }

  /** A character is unexpected exactly when it starts nothing: a lone `&`, an `@` before no quote, and so on. */
  lemma UnexpectedExactly(u: Unicode, s: string)
    requires s != ""
    ensures NextToken(u, s) == Err(UnexpectedCharacter) <==> StartsNothing(u, s)
  {
    hide NumberToken, StringToken, InterpolatedToken, Punctuation, IsLetter;
    KnownErrors(s);
    NoPunctuation(s);
  }

  lemma NoPunctuation(s: string)
    requires s != ""
    ensures var (c, next) := (s[0], PeekAt(s, 1));
            Punctuation(s).None? <==>
              && c !in "+-*/%=!<>,:?()[]{};" && !(c == '&' && next == '&') && !(c == '|' && next == '|')
              && !(c == '.' && !IsAsciiDigit(next))
  {
  }

  /** Strings and numbers have errors of their own. */
  lemma KnownErrors(s: string)
    requires s != ""
    ensures IsAsciiDigit(s[0]) || (s[0] == '.' && IsAsciiDigit(PeekAt(s, 1))) ==>
              NumberToken(s) != Err(UnexpectedCharacter)
    ensures forall quote, verbatim, offset :: StringToken(s, quote, verbatim, offset) != Err(UnexpectedCharacter)
    ensures |s| > 1 ==> StringToken(s[1..], '"', true, 1) != Err(UnexpectedCharacter)
    ensures |s| > 1 ==> InterpolatedToken(s) != Err(UnexpectedCharacter)
  {
    hide MantissaEnd, DigitsFrom, DecimalValue, StringBody, Split;
    forall quote, verbatim ensures StringBody(s[1..], quote, verbatim) != Err(UnexpectedCharacter) {
      BodyErrors(s[1..], quote, verbatim);
    }
    if |s| > 1 {
      BodyErrors(s[1..][1..], '"', true);
      SplitErrors(s[2..], "");
    }
  }

  lemma {:induction false} BodyErrors(s: string, quote: char, verbatim: bool)
    ensures StringBody(s, quote, verbatim) != Err(UnexpectedCharacter)
    decreases |s|
  {
    if s != "" && !AtQuote(s, quote, verbatim) && StringStep(s, quote, verbatim).Ok? {
      hide StringStep, AtQuote;
      BodyErrors(s[StringStep(s, quote, verbatim).value.1..], quote, verbatim);
    }
  }

  lemma {:induction false} SplitErrors(s: string, literal: string)
    ensures Split(s, literal) != Err(UnexpectedCharacter)
    decreases |s|
  {
    SplitStops(s, literal);
    if s != "" && s[0] != '"' {
      if Step(s).Ok? {
        hide Step, Split;
        SplitStep(s, literal);
        var (part, n) := Step(s).value;
        SplitErrors(s[n..], if part.Text? then literal + part.text else "");
      } else {
        hide Closer, Split;
        assert Step(s) != Err(UnexpectedCharacter);
      }
    }
  }

  // --- Numbers ---

  /** An integer is refused exactly when it does not fit in 64 bits. */
  lemma IntegerFits(u: Unicode, digits: string, rest: string)
    requires digits != "" && AllDigits(digits) && EndsBefore(u, Integer(0), rest)
    ensures DecimalValue(digits) > MAX_INT64 ==> NextToken(u, digits + rest) == Err(InvalidNumber)
    ensures DecimalValue(digits) <= MAX_INT64 ==>
              NextToken(u, digits + rest) == Ok(Token(TokenNumber, digits, IntLiteral(DecimalValue(digits)), 0))
  {
    hide DecimalValue, DigitsFrom;
    var s := digits + rest;
    assert forall k | 0 <= k < |digits| :: s[k] == digits[k];
    assert PeekAt(s, |digits|) == PeekAt(rest, 0) && PeekAt(s, |digits| + 1) == PeekAt(rest, 1);
    DigitsEnd(s, 0, |digits|);
    assert IsAsciiDigit(digits[0]) && s[0] == digits[0] && s[..|digits|] == digits;
    NumberTokens(u, s);
  }

  /** An exponent without digits is refused. */
  lemma ExponentNeedsDigits(u: Unicode, whole: string, fraction: string, mark: string, rest: string)
    requires AllDigits(whole) && AllDigits(fraction) && (whole != "" || fraction != "") && ExponentMark(mark)
    requires !IsAsciiDigit(PeekAt(rest, 0)) && (|mark| == 1 ==> PeekAt(rest, 0) !in "+-")
    ensures NextToken(u, Mantissa(whole, fraction) + mark + rest) == Err(InvalidExponent)
  {
    hide DigitsFrom, MantissaEnd, Mantissa;
    var m := Mantissa(whole, fraction);
    var s := m + mark + rest;
    assert s == m + (mark + rest);
    MantissaOf(whole, fraction, mark + rest);
    assert PeekAt(s, |m|) == mark[0];
    assert PeekAt(s, |m| + 1) == if |mark| == 1 then PeekAt(rest, 0) else mark[1];
    assert PeekAt(s, |m| + 2) == if |mark| == 1 then PeekAt(rest, 1) else PeekAt(rest, 0);
    NumberTokens(u, s);
  }

  // --- Strings ---

  /** A string's opening, and its value so far. */
  function Begun(style: Style, text: string): string {
    (if style == Verbatim then "@" else "") + [QuoteOf(style)] + EscapeText(style, text)
  }

  /** What stops the body of a string, after any of its value. */
  lemma BodyStops(u: Unicode, style: Style, text: string, tail: string, e: LexError)
    requires (tail == "" || tail[0] as int < 0x80) && Body(style, tail) == Err(e)
    ensures NextToken(u, Begun(style, text) + tail) == Err(e)
  {
    hide StringBody, EscapeText, NextToken;
    var s := Begun(style, text) + tail;
    BodyOverEscaped(style, text, tail);
    StringTokens(u, s);
    var quote := if style == Verbatim then 1 else 0;
    assert s[quote..] == [QuoteOf(style)] + (EscapeText(style, text) + tail);
    assert s[quote..][1..] == EscapeText(style, text) + tail;
    assert s[quote] == QuoteOf(style) && (style == Verbatim ==> s[0] == '@');
    assert s[0..] == s;
  }

  /** A string must be closed, and a plain one before the line ends. */
  lemma UnclosedIsRefused(u: Unicode, style: Style, text: string, rest: string)
    ensures NextToken(u, Begun(style, text)) == Err(UnterminatedString)
    ensures style != Verbatim ==>
              && NextToken(u, Begun(style, text) + "\n" + rest) == Err(UnterminatedString)
              && NextToken(u, Begun(style, text) + "\r" + rest) == Err(UnterminatedString)
  {
    hide NextToken;
    assert Begun(style, text) + "" == Begun(style, text);
    BodyStops(u, style, text, "", UnterminatedString);
    if style != Verbatim {
      assert Begun(style, text) + ("\n" + rest) == Begun(style, text) + "\n" + rest;
      assert Begun(style, text) + ("\r" + rest) == Begun(style, text) + "\r" + rest;
      BodyStops(u, style, text, "\n" + rest, UnterminatedString);
      BodyStops(u, style, text, "\r" + rest, UnterminatedString);
    }
  }

  /** A backslash before anything that is no escape is refused. */
  lemma BadEscapeIsRefused(u: Unicode, style: Style, text: string, c: char, rest: string)
    requires style != Verbatim && EscapedByte(c).None? && c != 'u'
    ensures NextToken(u, Begun(style, text) + ("\\" + [c] + rest)) == Err(InvalidEscape)
  {
    hide NextToken;
    var tail := "\\" + [c] + rest;
    assert tail[1..][0] == c;
    assert DecodeEscape(tail[1..]) == Err(InvalidEscape);
    BodyStops(u, style, text, tail, InvalidEscape);
  }

  /** So is a `\u` without four hexadecimal digits. */
  lemma BadUnicodeEscapeIsRefused(u: Unicode, style: Style, text: string, digits: string)
    requires style != Verbatim && (|digits| < 4 || exists k | 0 <= k < 4 :: HexValue(digits[k]).None?)
    ensures NextToken(u, Begun(style, text) + ("\\u" + digits)) == Err(InvalidUnicodeEscape)
  {
    hide NextToken, HexValue;
    var tail := "\\u" + digits;
    var after := tail[1..];
    assert after == "u" + digits;
    if |digits| >= 4 {
      assert after[1] == digits[0] && after[2] == digits[1] && after[3] == digits[2] && after[4] == digits[3];
      var k :| 0 <= k < 4 && HexValue(digits[k]).None?;
      assert k == 0 || k == 1 || k == 2 || k == 3;
    }
    assert DecodeEscape(after) == Err(InvalidUnicodeEscape);
    BodyStops(u, style, text, tail, InvalidUnicodeEscape);
  }

  // --- Interpolated strings ---

  /** An interpolated string must be closed, and before the line ends. */
  lemma UnclosedInterpolationIsRefused(u: Unicode, parts: seq<Part>, rest: string)
    requires I.Printable(parts)
    ensures NextToken(u, "$\"" + (I.Print(parts) + "")) == Err(UnterminatedString)
    ensures NextToken(u, "$\"" + (I.Print(parts) + ("\n" + rest))) == Err(UnterminatedString)
  {
    hide Split, NextToken;
    forall before ensures Split("", before) == Err(UnterminatedString) {
      SplitStops("", before);
    }
    InterpolationStops(u, parts, "", UnterminatedString);
    var line := "\n" + rest;
    forall before ensures Split(line, before) == Err(UnterminatedString) {
      SplitStops(line, before);
    }
    InterpolationStops(u, parts, line, UnterminatedString);
  }

  /** A hole must be closed, and a closing brace that closes none must be doubled. */
  lemma LoneBraceIsRefused(u: Unicode, parts: seq<Part>, rest: string)
    requires I.Printable(parts)
    ensures PeekAt(rest, 0) != '}' ==> NextToken(u, "$\"" + (I.Print(parts) + ("}" + rest))) == Err(UnmatchedBrace)
    ensures PeekAt(rest, 0) != '{' && Closer(rest, '{', '}', 1).Err? ==>
              NextToken(u, "$\"" + (I.Print(parts) + ("{" + rest))) == Err(UnclosedHole)
  {
    hide Split, NextToken, Closer;
    if PeekAt(rest, 0) != '}' {
      var s := "}" + rest;
      assert PeekAt(s, 1) == PeekAt(rest, 0);
      forall before ensures Split(s, before) == Err(UnmatchedBrace) {
        SplitStops(s, before);
      }
      InterpolationStops(u, parts, s, UnmatchedBrace);
    }
    if PeekAt(rest, 0) != '{' && Closer(rest, '{', '}', 1).Err? {
      var s := "{" + rest;
      assert PeekAt(s, 1) == PeekAt(rest, 0) && s[1..] == rest;
      forall before ensures Split(s, before) == Err(UnclosedHole) {
        SplitStops(s, before);
      }
      InterpolationStops(u, parts, s, UnclosedHole);
    }
  }

  lemma InterpolationStops(u: Unicode, parts: seq<Part>, tail: string, e: LexError)
    requires I.Printable(parts) && forall before :: Split(tail, before) == Err(e)
    ensures NextToken(u, "$\"" + (I.Print(parts) + tail)) == Err(e)
  {
    hide Split, NextToken;
    var s := "$\"" + (I.Print(parts) + tail);
    assert s[2..] == I.Print(parts) + tail;
    I.SplitStopsAfterPrint(parts, tail, "", e);
    I.InterpolatedTokens(u, s);
  }

  /** An open block comment is refused. */
  lemma OpenCommentIsRefused(u: Unicode, body: string, base: nat)
    requires forall j | 0 <= j < |body| - 1 :: !C.ClosesComment(body, j)
    ensures Scan(u, "/*" + body, base) == Err(UnterminatedComment)
  {
    hide NextToken, TriviaLength;
    var s := "/*" + body;
    assert s[2..] == body;
    NoCloser(body);
    TriviaComment(s);
  }

  lemma {:induction false} NoCloser(s: string)
    requires forall j | 0 <= j < |s| - 1 :: !C.ClosesComment(s, j)
    ensures BlockTail(s) == Err(UnterminatedComment)
  {
    if |s| >= 2 {
      assert !C.ClosesComment(s, 0);
      forall j | 0 <= j < |s| - 2 ensures !C.ClosesComment(s[1..], j) {
        assert !C.ClosesComment(s, j + 1);
      }
      NoCloser(s[1..]);
    }
  }
}
