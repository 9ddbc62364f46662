/** Stripping a wrapper is exact: the matcher finds the closer the tokens would find. */
module Wrapping {
  import opened Wrappers
  import opened GoStrings
  import opened Lexer
  import opened Matching

  // --- The two readers of a string agree on where it ends ---

  lemma {:induction false} StringTailOverHighBytes(s: string, n: nat, quote: char, verbatim: bool)
    requires n <= |s| && quote as int < 0x80
    requires forall k | 0 <= k < n :: s[k] as int >= 0x80
    ensures StringTail(s, quote, verbatim) == Shift(n, StringTail(s[n..], quote, verbatim))
  {
    if n == 0 {
      assert s[0..] == s;
    } else {
      assert s[1..][n - 1..] == s[n..];
      StringTailOverHighBytes(s[1..], n - 1, quote, verbatim);
    }
  }

  /** An escape the tokenizer accepts is one the matcher steps over: only its first character can
      be special. */
  lemma StringTailOverEscape(s: string, quote: char)
    requires s != "" && s[0] == '\\' && quote in "\"'" && DecodeEscape(s[1..]).Ok?
    ensures var n := 1 + DecodeEscape(s[1..]).value.1;
            StringTail(s, quote, false) == Shift(n, StringTail(s[n..], quote, false))
  {
    var w := DecodeEscape(s[1..]).value.1;
    assert s[1] == s[1..][0];
    if w == 5 {
      var t := s[2..];
      assert s[1..][1..5] == t[..4];
      assert forall k | 0 <= k < 4 :: HexValue(t[k]).Some? by {
        assert t[0] == s[1..][1] && t[1] == s[1..][2] && t[2] == s[1..][3] && t[3] == s[1..][4];
      }
      StringTailOverHex(t, 4, quote);
    }
  }

  lemma {:induction false} StringTailOverHex(s: string, n: nat, quote: char)
    requires n <= |s| && quote in "\"'"
    requires forall k | 0 <= k < n :: HexValue(s[k]).Some?
    ensures StringTail(s, quote, false) == Shift(n, StringTail(s[n..], quote, false))
  {
    if n == 0 {
      assert s[0..] == s;
    } else {
      assert s[1..][n - 1..] == s[n..];
      StringTailOverHex(s[1..], n - 1, quote);
    }
  }

  /** When the tokenizer reads a string, the matcher skips exactly that string. */
  lemma {:induction false} BodyEndsWhereTailEnds(s: string, quote: char, verbatim: bool)
    requires quote in "\"'" && (verbatim ==> quote == '"')
    requires StringBody(s, quote, verbatim).Ok?
    ensures StringTail(s, quote, verbatim) == Ok(StringBody(s, quote, verbatim).value.1)
    decreases |s|
  {
    hide StringStep, StringTail;
    if AtQuote(s, quote, verbatim) {
      TailAtQuote(s, quote, verbatim);
    } else {
      TailOverStep(s, quote, verbatim);
      BodyEndsWhereTailEnds(s[StringStep(s, quote, verbatim).value.1..], quote, verbatim);
    }
  }

  lemma TailAtQuote(s: string, quote: char, verbatim: bool)
    requires quote in "\"'" && AtQuote(s, quote, verbatim)
    ensures DecodeRune(s).1 == 1 && StringTail(s, quote, verbatim) == Ok(1)
  {
  }

  lemma TailOverStep(s: string, quote: char, verbatim: bool)
    requires quote in "\"'" && (verbatim ==> quote == '"')
    requires s != "" && !AtQuote(s, quote, verbatim) && StringStep(s, quote, verbatim).Ok?
    ensures var n := StringStep(s, quote, verbatim).value.1;
            StringTail(s, quote, verbatim) == Shift(n, StringTail(s[n..], quote, verbatim))
  {
    hide DecodeEscape;
    if s[0] as int >= 0x80 {
      StringTailOverHighBytes(s, DecodeRune(s).1, quote, verbatim);
    } else if !verbatim && s[0] == '\\' {
      StringTailOverEscape(s, quote);
    }
  }

  // --- What the matcher does over the bytes of one token ---

  predicate Brackets(left: char, right: char) {
    (left == '(' && right == ')') || (left == '{' && right == '}')
  }

  /** A byte the matcher steps over on its own. */
  predicate Plain(c: char, left: char, right: char) {
    c != left && c != right && c !in "\"'$@/"
  }

  lemma {:induction false} CloserOverPlain(s: string, n: nat, left: char, right: char, depth: int)
    requires n <= |s| && Brackets(left, right)
    requires forall k | 0 <= k < n :: Plain(s[k], left, right)
    ensures Closer(s, left, right, depth) == Shift(n, Closer(s[n..], left, right, depth))
  {
    hide Closer;
    if n == 0 {
      assert s[0..] == s;
    } else {
      CloserSkip(s, left, right, depth);
      assert s[1..][n - 1..] == s[n..];
      CloserOverPlain(s[1..], n - 1, left, right, depth);
    }
  }

  lemma {:induction false} IdentBytesArePlain(u: Unicode, s: string, left: char, right: char)
    requires Brackets(left, right)
    ensures forall k | 0 <= k < IdentLength(u, s) :: Plain(s[k], left, right)
    decreases |s|
  {
    if s != "" {
      var (r, w) := DecodeRune(s);
      if IdentRune(u, r) {
        IdentBytesArePlain(u, s[w..], left, right);
        forall k | 0 <= k < IdentLength(u, s) ensures Plain(s[k], left, right) {
          if k >= w {
            assert s[k] == s[w..][k - w];
          }
        }
      }
    }
  }

  lemma NumberBytesArePlain(s: string, left: char, right: char)
    requires Brackets(left, right)
    requires s != "" && (IsAsciiDigit(s[0]) || (s[0] == '.' && IsAsciiDigit(PeekAt(s, 1))))
    requires NumberToken(s).Ok?
    ensures forall k | 0 <= k < |NumberToken(s).value.lexeme| :: Plain(s[k], left, right)
  {
    hide Plain;
    NumberBytes(s);
    forall c | IsAsciiDigit(c) || c in ".eE+-" ensures Plain(c, left, right) {
      NumberByteIsPlain(c, left, right);
    }
  }

  lemma NumberBytes(s: string)
    requires s != "" && (IsAsciiDigit(s[0]) || (s[0] == '.' && IsAsciiDigit(PeekAt(s, 1))))
    requires NumberToken(s).Ok?
    ensures forall k | 0 <= k < |NumberToken(s).value.lexeme| :: IsAsciiDigit(s[k]) || s[k] in ".eE+-"
  {
    hide DecimalValue, DigitsFrom, MantissaEnd;
    var (end, _) := MantissaEnd(s);
  }

  lemma NumberByteIsPlain(c: char, left: char, right: char)
    requires Brackets(left, right) && (IsAsciiDigit(c) || c in ".eE+-")
    ensures Plain(c, left, right)
  {
  }

  function LeftKind(form: Form): TokenKind {
    if form == FormBlock then TokenLBrace else TokenLParen
  }

  function RightKind(form: Form): TokenKind {
    if form == FormBlock then TokenRBrace else TokenRParen
  }

  /** The matcher's answer once it is past a token of this kind and width. */
  function PastToken(kind: TokenKind, width: nat, rest: string, form: Form, depth: int): Result<nat, LexError> {
    if kind == LeftKind(form) then Shift(width, Closer(rest, LeftOf(form), RightOf(form), depth + 1))
    else if kind == RightKind(form) && depth == 1 then Ok(0)
    else if kind == RightKind(form) then Shift(width, Closer(rest, LeftOf(form), RightOf(form), depth - 1))
    else Shift(width, Closer(rest, LeftOf(form), RightOf(form), depth))
  }

  /** `s` is read as a token, not as a comment, and `x` starts with the wrapper's closer. */
  predicate AtToken(u: Unicode, s: string, x: string, form: Form) {
    && s != "" && NextToken(u, s).Ok?
    && (s[0] == '/' ==> CommentLength(s) == Ok(0))
    && x != "" && x[0] == RightOf(form)
  }

  lemma PunctuationIsOneBracketOrPlain(s: string, form: Form)
    requires s != "" && Punctuation(s).Some?
    ensures var (kind, text) := Punctuation(s).value;
            && (kind == LeftKind(form) <==> text == [LeftOf(form)])
            && (kind == RightKind(form) <==> text == [RightOf(form)])
            && (kind == TokenSlash <==> text == "/")
            && (kind !in {LeftKind(form), RightKind(form), TokenSlash} ==>
                  && Plain(text[0], LeftOf(form), RightOf(form))
                  && (|text| == 1 || (|text| == 2 && Plain(text[1], LeftOf(form), RightOf(form)))))
            && s[0] == text[0]
  {
    hide LeftKind, RightKind, LeftOf, RightOf, Plain;
    PunctuationShape(s);
    PunctuationBrackets(s);
    PlainPunctuation(form);
  }

  /** Bytes that punctuation other than brackets and slashes consists of. */
  predicate Inert(c: char) {
    c !in "(){}/\"'@$"
  }

  lemma PunctuationShape(s: string)
    requires s != "" && Punctuation(s).Some?
    ensures var (kind, text) := Punctuation(s).value;
            && s[0] == text[0] && 1 <= |text| <= 2
            && (kind in {TokenLParen, TokenRParen, TokenLBrace, TokenRBrace, TokenSlash}
                || forall k | 0 <= k < |text| :: Inert(text[k]))
  {
  }

  lemma PunctuationBrackets(s: string)
    requires s != "" && Punctuation(s).Some?
    ensures var (kind, text) := Punctuation(s).value;
            && (kind == TokenLParen <==> text == "(") && (kind == TokenRParen <==> text == ")")
            && (kind == TokenLBrace <==> text == "{") && (kind == TokenRBrace <==> text == "}")
            && (kind == TokenSlash <==> text == "/")
  {
    hide Punctuation;
    PunctuationKinds(s);
    PunctuationBytes(s);
    var text := Punctuation(s).value.1;
    assert |text| == 1 ==> text == [text[0]];
  }

  lemma PunctuationKinds(s: string)
    requires s != "" && Punctuation(s).Some?
    ensures var (kind, text) := Punctuation(s).value;
            && (kind == TokenLParen ==> text == "(") && (kind == TokenRParen ==> text == ")")
            && (kind == TokenLBrace ==> text == "{") && (kind == TokenRBrace ==> text == "}")
            && (kind == TokenSlash ==> text == "/")
  {
  }

  /** The first byte alone decides on these. */
  lemma PunctuationBytes(s: string)
    requires s != "" && Punctuation(s).Some?
    ensures var kind := Punctuation(s).value.0;
            && (s[0] == '(' ==> kind == TokenLParen) && (s[0] == ')' ==> kind == TokenRParen)
            && (s[0] == '{' ==> kind == TokenLBrace) && (s[0] == '}' ==> kind == TokenRBrace)
            && (s[0] == '/' ==> kind == TokenSlash)
  {
  }

  lemma PlainPunctuation(form: Form)
    ensures forall c | Inert(c) :: Plain(c, LeftOf(form), RightOf(form))
    ensures forall c | c in "(){}" && c != LeftOf(form) && c != RightOf(form) :: Plain(c, LeftOf(form), RightOf(form))
    ensures form == FormBlock ==>
              && LeftOf(form) == '{' && RightOf(form) == '}'
              && LeftKind(form) == TokenLBrace && RightKind(form) == TokenRBrace
    ensures form != FormBlock ==>
              && LeftOf(form) == '(' && RightOf(form) == ')'
              && LeftKind(form) == TokenLParen && RightKind(form) == TokenRParen
  {
  }

  lemma PunctuationStep(u: Unicode, s: string, x: string, form: Form, depth: int)
    requires AtToken(u, s, x, form) && Punctuation(s).Some?
    ensures var (kind, text) := Punctuation(s).value;
            Closer(s + x, LeftOf(form), RightOf(form), depth) == PastToken(kind, |text|, s[|text|..] + x, form, depth)
  {
    hide Closer, Punctuation, Skip;
    var (left, right) := (LeftOf(form), RightOf(form));
    PunctuationIsOneBracketOrPlain(s, form);
    var (kind, text) := Punctuation(s).value;
    DropAppend(s, x, |text|);
    if kind == LeftKind(form) {
      CloserLeft(s + x, left, right, depth);
    } else if kind == RightKind(form) {
      CloserRight(s + x, left, right, depth);
    } else if kind == TokenSlash {
      SlashIsSkippedAlone(s, x);
      CloserSkip(s + x, left, right, depth);
    } else {
      assert forall k | 0 <= k < |text| :: (s + x)[k] == text[k];
      CloserOverPlain(s + x, |text|, left, right, depth);
    }
  }

  lemma SlashIsSkippedAlone(s: string, x: string)
    requires s != "" && s[0] == '/' && CommentLength(s) == Ok(0)
    requires x != "" && x[0] in ")}"
    ensures Skip(s + x) == Ok(1)
  {
    if |s| == 1 {
      assert (s + x)[1] == x[0];
    }
    assert CommentLength(s + x) == Ok(0);
  }

  lemma StringSkip(s: string, x: string, quote: char, verbatim: bool)
    requires s != "" && quote in "\"'" && (verbatim ==> quote == '"')
    requires StringBody(s[1..], quote, verbatim).Ok?
    requires x != "" && x[0] in ")}"
    ensures StringTail((s + x)[1..], quote, verbatim) == Ok(StringBody(s[1..], quote, verbatim).value.1)
  {
    BodyEndsWhereTailEnds(s[1..], quote, verbatim);
    DropAppend(s, x, 1);
    StringTailExtends(s[1..], x, quote, verbatim);
  }

  /** The tokens that the matcher passes in one skip: strings of the three kinds. */
  lemma QuotedStep(u: Unicode, s: string, x: string, form: Form)
    requires AtToken(u, s, x, form) && Punctuation(s).None?
    requires s[0] in "\"'@$"
    ensures Skip(s + x) == Ok(NextToken(u, s).value.End())
  {
    hide StringBody, StringTail, Split, Punctuation;
    if s[0] == '"' || s[0] == '\'' {
      StringSkip(s, x, s[0], false);
    } else if s[0] == '@' {
      DropAppend(s, x, 2);
      DropAppend(s[1..], x, 1);
      StringSkip(s[1..], x, '"', true);
    } else {
      DropAppend(s, x, 2);
      SplitExtends(s[2..], x, "");
    }
  }

  lemma PlainStep(u: Unicode, s: string, form: Form)
    requires s != "" && NextToken(u, s).Ok? && Punctuation(s).None?
    requires s[0] !in "\"'@$"
    ensures var t := NextToken(u, s).value;
            && t.kind !in {LeftKind(form), RightKind(form)}
            && forall k | 0 <= k < t.End() :: Plain(s[k], LeftOf(form), RightOf(form))
  {
    hide Punctuation, NumberToken;
    if IsAsciiDigit(s[0]) || s[0] == '.' {
      NumberBytesArePlain(s, LeftOf(form), RightOf(form));
    } else {
      IdentBytesArePlain(u, s, LeftOf(form), RightOf(form));
    }
  }

  /** One token of the tokenizer is a whole number of the matcher's steps, and changes its depth as
      the token's kind says. */
  lemma TokenStep(u: Unicode, s: string, x: string, form: Form, depth: int)
    requires AtToken(u, s, x, form)
    ensures var t := NextToken(u, s).value;
            Closer(s + x, LeftOf(form), RightOf(form), depth)
            == PastToken(t.kind, t.End(), s[t.End()..] + x, form, depth)
  {
    hide Closer, PastToken, Punctuation, NumberToken, StringToken, InterpolatedToken;
    if Punctuation(s).Some? {
      PunctuationStep(u, s, x, form, depth);
    } else if s[0] in "\"'@$" {
      QuotedTokenStep(u, s, x, form, depth);
    } else {
      PlainTokenStep(u, s, x, form, depth);
    }
  }

  lemma QuotedTokenStep(u: Unicode, s: string, x: string, form: Form, depth: int)
    requires AtToken(u, s, x, form) && Punctuation(s).None? && s[0] in "\"'@$"
    ensures var t := NextToken(u, s).value;
            Closer(s + x, LeftOf(form), RightOf(form), depth)
            == PastToken(t.kind, t.End(), s[t.End()..] + x, form, depth)
  {
    hide Closer, Punctuation, Skip, StringToken, InterpolatedToken, NumberToken, DecodeRune;
    DropAppend(s, x, NextToken(u, s).value.End());
    QuotedStep(u, s, x, form);
    CloserSkip(s + x, LeftOf(form), RightOf(form), depth);
  }

  lemma PlainTokenStep(u: Unicode, s: string, x: string, form: Form, depth: int)
    requires AtToken(u, s, x, form) && Punctuation(s).None? && s[0] !in "\"'@$"
    ensures var t := NextToken(u, s).value;
            Closer(s + x, LeftOf(form), RightOf(form), depth)
            == PastToken(t.kind, t.End(), s[t.End()..] + x, form, depth)
  {
    hide Closer, Punctuation, NextToken, DecodeRune;
    var end := NextToken(u, s).value.End();
    DropAppend(s, x, end);
    PlainStep(u, s, form);
    CloserOverPlain(s + x, end, LeftOf(form), RightOf(form), depth);
  }

  // --- Spaces and comments between tokens ---

  /** The spaces and comments `s` starts with run to its end, and end inside a `//` comment. */
  predicate TriviaEndsOpen(s: string)
    decreases |s|
  {
    if s == "" then false
    else
      var (r, w) := DecodeRune(s);
      if IsSpace(r) then TriviaEndsOpen(s[w..])
      else if r != '/' as int then false
      else
        match CommentLength(s)
        case Err(_) => false
        case Ok(n) => n != 0 && ((n == |s| && s[1] == '/') || TriviaEndsOpen(s[n..]))
  }

  /** The source ends inside a `//` comment. */
  predicate EndsInLineComment(u: Unicode, s: string)
    decreases |s|
  {
    match TriviaLength(s)
    case Err(_) => false
    case Ok(n) =>
      if n == |s| then TriviaEndsOpen(s)
      else
        match NextToken(u, s[n..])
        case Err(_) => false
        case Ok(t) => EndsInLineComment(u, s[n + t.End()..])
  }

  lemma {:induction false} LineTailToEnd(s: string, x: string)
    requires LineTail(s) == |s| && '\n' !in x
    ensures LineTail(s + x) == |s| + |x|
  {
    if s != "" {
      DropAppend(s, x, 1);
      LineTailToEnd(s[1..], x);
    } else {
      assert s + x == x;
      LineTailWithoutNewline(x);
    }
  }

  lemma {:induction false} LineTailWithoutNewline(x: string)
    requires '\n' !in x
    ensures LineTail(x) == |x|
  {
    if x != "" {
      LineTailWithoutNewline(x[1..]);
    }
  }

  /** A comment that does not run to the end of the source is skipped whole, whatever follows. */
  lemma CommentSkip(s: string, x: string)
    requires s != "" && s[0] == '/' && CommentLength(s).Ok? && CommentLength(s).value != 0
    requires x != "" && x[0] in ")}"
    requires !(CommentLength(s).value == |s| && s[1] == '/')
    ensures Skip(s + x) == Ok(CommentLength(s).value)
  {
    DropAppend(s, x, 2);
    if s[1] == '/' {
      LineTailExtends(s[2..], x);
    } else {
      BlockTailExtends(s[2..], x);
    }
  }

  lemma SpaceStep(s: string, x: string, form: Form, depth: int)
    requires form != FormBare && s != "" && IsSpace(DecodeRune(s).0)
    ensures var w := DecodeRune(s).1;
            Closer(s + x, LeftOf(form), RightOf(form), depth)
            == Shift(w, Closer(s[w..] + x, LeftOf(form), RightOf(form), depth))
  {
    var w := DecodeRune(s).1;
    DropAppend(s, x, w);
    assert forall k | 0 <= k < w :: (s + x)[k] == s[k];
    CloserOverPlain(s + x, w, LeftOf(form), RightOf(form), depth);
  }

  lemma CommentStep(s: string, x: string, form: Form, depth: int)
    requires form != FormBare && x == [RightOf(form)]
    requires s != "" && s[0] == '/' && CommentLength(s).Ok? && CommentLength(s).value != 0
    ensures var n := CommentLength(s).value;
            if n == |s| && s[1] == '/' then Closer(s + x, LeftOf(form), RightOf(form), depth) == Err(UnclosedWrapper)
            else Closer(s + x, LeftOf(form), RightOf(form), depth)
                 == Shift(n, Closer(s[n..] + x, LeftOf(form), RightOf(form), depth))
  {
    hide Closer, Skip, CommentLength;
    var n := CommentLength(s).value;
    CloserSkip(s + x, LeftOf(form), RightOf(form), depth);
    if n == |s| && s[1] == '/' {
      OpenCommentSwallows(s, x);
      assert (s + x)[|s + x|..] == "";
      CloserEnd(LeftOf(form), RightOf(form), depth);
    } else {
      CommentSkip(s, x);
      DropAppend(s, x, n);
    }
  }

  /** What the matcher does over the spaces and comments before a token. */
  lemma {:induction false} TriviaStep(s: string, x: string, form: Form, depth: int)
    requires TriviaLength(s).Ok? && form != FormBare && x == [RightOf(form)]
    ensures TriviaEndsOpen(s) ==>
              && TriviaLength(s).value == |s|
              && Closer(s + x, LeftOf(form), RightOf(form), depth) == Err(UnclosedWrapper)
    ensures !TriviaEndsOpen(s) ==>
              var n := TriviaLength(s).value;
              Closer(s + x, LeftOf(form), RightOf(form), depth)
              == Shift(n, Closer(s[n..] + x, LeftOf(form), RightOf(form), depth))
    decreases |s|
  {
    hide Closer, CommentLength, TriviaLength, DecodeRune, TriviaEndsOpen;
    TriviaIsSkipped(s, x, form, depth);
  }

  /** What `TriviaStep` says. */
  ghost predicate TriviaSkipped(s: string, x: string, form: Form, depth: int) {
    var closer := Closer(s + x, LeftOf(form), RightOf(form), depth);
    TriviaLength(s).Ok?
    && var n := TriviaLength(s).value;
       if TriviaEndsOpen(s) then n == |s| && closer == Err(UnclosedWrapper)
       else closer == Shift(n, Closer(s[n..] + x, LeftOf(form), RightOf(form), depth))
  }

  lemma {:induction false} TriviaIsSkipped(s: string, x: string, form: Form, depth: int)
    requires TriviaLength(s).Ok? && form != FormBare && x == [RightOf(form)]
    ensures TriviaSkipped(s, x, form, depth)
    decreases |s|
  {
    hide Closer, CommentLength, TriviaLength, DecodeRune, TriviaSkipped;
    var (r, w) := DecodeRune(s);
    if s == "" || (!IsSpace(r) && r != '/' as int) {
      TriviaStops(s);
      NothingSkipped(s, x, form, depth);
    } else if IsSpace(r) {
      TriviaSpace(s);
      TriviaIsSkipped(s[w..], x, form, depth);
      SpaceSkipped(s, x, form, depth);
    } else {
      TriviaComment(s);
      var n := CommentLength(s).value;
      if n == 0 {
        NothingSkipped(s, x, form, depth);
      } else {
        if !(n == |s| && s[1] == '/') {
          TriviaIsSkipped(s[n..], x, form, depth);
        }
        CommentSkipped(s, x, form, depth);
      }
    }
  }

  lemma NothingSkipped(s: string, x: string, form: Form, depth: int)
    requires TriviaLength(s) == Ok(0) && !TriviaEndsOpen(s)
    ensures TriviaSkipped(s, x, form, depth)
  {
    hide Closer, TriviaLength, TriviaEndsOpen;
    assert s[0..] == s;
  }

  lemma SpaceSkipped(s: string, x: string, form: Form, depth: int)
    requires form != FormBare && s != "" && IsSpace(DecodeRune(s).0)
    requires TriviaSkipped(s[DecodeRune(s).1..], x, form, depth)
    ensures TriviaSkipped(s, x, form, depth)
  {
    hide Closer, TriviaLength, DecodeRune, LeftOf, RightOf;
    var w := DecodeRune(s).1;
    TriviaSpace(s);
    SpaceStep(s, x, form, depth);
    var n := TriviaLength(s[w..]).value;
    assert s[w..][n..] == s[w + n..];
  }

  lemma CommentSkipped(s: string, x: string, form: Form, depth: int)
    requires TriviaLength(s).Ok? && form != FormBare && x == [RightOf(form)]
    requires s != "" && DecodeRune(s).0 == '/' as int && CommentLength(s).Ok? && CommentLength(s).value != 0
    requires var n := CommentLength(s).value;
             (n == |s| && s[1] == '/') || TriviaSkipped(s[n..], x, form, depth)
    ensures TriviaSkipped(s, x, form, depth)
  {
    hide Closer, TriviaLength, CommentLength;
    var n := CommentLength(s).value;
    TriviaComment(s);
    CommentStep(s, x, form, depth);
    if n == |s| && s[1] == '/' {
      NothingLeft(s[n..]);
    } else {
      var k := TriviaLength(s[n..]).value;
      assert s[n..][k..] == s[n + k..];
    }
  }

  lemma NothingLeft(s: string)
    requires s == ""
    ensures TriviaLength(s) == Ok(0)
  {
  }

  lemma OpenCommentSwallows(s: string, x: string)
    requires |s| >= 2 && s[0] == '/' && s[1] == '/' && CommentLength(s) == Ok(|s|) && '\n' !in x
    ensures Skip(s + x) == Ok(|s + x|)
  {
    DropAppend(s, x, 2);
    LineTailToEnd(s[2..], x);
  }

  // --- The matcher against the depth of tokens ---

  /** The offset of the token that brings the depth from `depth` to zero. */
  function TokenCloser(tokens: seq<Token>, form: Form, depth: int): Option<nat> {
    if tokens == [] then None
    else if tokens[0].kind == LeftKind(form) then TokenCloser(tokens[1..], form, depth + 1)
    else if tokens[0].kind != RightKind(form) then TokenCloser(tokens[1..], form, depth)
    else if depth == 1 then Some(tokens[0].offset)
    else TokenCloser(tokens[1..], form, depth - 1)
  }

  function Weight(t: Token, form: Form): int {
    if t.kind == LeftKind(form) then 1 else if t.kind == RightKind(form) then -1 else 0
  }

  /** Left brackets minus right brackets. */
  function Net(tokens: seq<Token>, form: Form): int {
    if tokens == [] then 0 else Weight(tokens[0], form) + Net(tokens[1..], form)
  }

  /** Where the tokens say a wrapper ends that is opened at `depth` and has its closer at `end`,
      unless a line comment `open` there swallows it. */
  function WrapperEnd(tokens: seq<Token>, form: Form, depth: int, open: bool, end: nat): Result<nat, LexError> {
    match TokenCloser(tokens, form, depth)
    case Some(offset) => Ok(offset)
    case None => if depth + Net(tokens, form) == 1 && !open then Ok(end) else Err(UnclosedWrapper)
  }

  lemma WrapperEndStep(t: Token, more: seq<Token>, form: Form, depth: int, open: bool, end: nat)
    requires form != FormBare
    ensures WrapperEnd([t] + more, form, depth, open, end)
         == if t.kind == RightKind(form) && depth == 1 then Ok(t.offset)
            else WrapperEnd(more, form, depth + Weight(t, form), open, end)
  {
    assert ([t] + more)[1..] == more;
  }

  /** One round of the tokenizer: trivia, a token, and what is left after them. */
  lemma ScanStep(u: Unicode, s: string, base: nat) returns (t: Token, n: nat, tail: string, more: seq<Token>)
    requires Scan(u, s, base).Ok? && TriviaLength(s).value < |s|
    ensures n == TriviaLength(s).value && NextToken(u, s[n..]) == Ok(t) && n + t.End() <= |s|
    ensures tail == s[n + t.End()..] && Scan(u, tail, base + n + t.End()) == Ok(more)
    ensures Scan(u, s, base) == Ok([t.(offset := base + n + t.offset)] + more)
    ensures EndsInLineComment(u, s) == EndsInLineComment(u, tail)
  {
    hide NextToken, TriviaLength, TriviaEndsOpen;
    n := TriviaLength(s).value;
    t := NextToken(u, s[n..]).value;
    tail := s[n + t.End()..];
    more := Scan(u, tail, base + n + t.End()).value;
  }

  /** The matcher over one round of the tokenizer. */
  lemma RoundStep(u: Unicode, s: string, n: nat, x: string, form: Form, depth: int)
    requires form != FormBare && x == [RightOf(form)]
    requires TriviaLength(s) == Ok(n) && n < |s| && NextToken(u, s[n..]).Ok?
    ensures var t := NextToken(u, s[n..]).value;
            var c := Closer(s + x, LeftOf(form), RightOf(form), depth);
            if t.kind == RightKind(form) && depth == 1 then c == Ok(n) && t.offset == 0
            else c == Shift(n + t.End(),
                            Closer(s[n + t.End()..] + x, LeftOf(form), RightOf(form), depth + Weight(t, form)))
  {
    hide Closer, NextToken, TriviaLength, TriviaEndsOpen;
    var t := NextToken(u, s[n..]).value;
    TriviaStep(s, x, form, depth);
    TriviaStopsBeforeToken(s);
    TokenStep(u, s[n..], x, form, depth);
    assert s[n..][t.End()..] == s[n + t.End()..];
    if t.kind == RightKind(form) {
      RightTokenIsOneByte(u, s[n..], form);
    }
  }

  lemma ScanTrivia(u: Unicode, s: string, base: nat)
    requires Scan(u, s, base).Ok?
    ensures TriviaLength(s).Ok?
  {
  }

  lemma CloserAtEnd(eof: Token, form: Form, depth: int, open: bool, end: nat)
    requires form != FormBare && eof.kind == TokenEOF && depth >= 1
    ensures !open ==>
              Shift(end, Closer([RightOf(form)], LeftOf(form), RightOf(form), depth))
              == WrapperEnd([eof], form, depth, open, end)
    ensures open ==> WrapperEnd([eof], form, depth, open, end) == Err(UnclosedWrapper)
  {
    hide Closer;
    var tokens := [eof];
    assert tokens[1..] == [] && [RightOf(form)][1..] == "";
    assert TokenCloser(tokens, form, depth) == None;
    assert Net(tokens, form) == 0;
    CloserRight([RightOf(form)], LeftOf(form), RightOf(form), depth);
    CloserEnd(LeftOf(form), RightOf(form), depth - 1);
  }

  lemma CloserMatchesAtEnd(u: Unicode, s: string, base: nat, form: Form, depth: int)
    requires form != FormBare && depth >= 1
    requires Scan(u, s, base).Ok? && TriviaLength(s) == Ok(|s|)
    ensures Shift(base, Closer(s + [RightOf(form)], LeftOf(form), RightOf(form), depth))
         == WrapperEnd(Scan(u, s, base).value, form, depth, EndsInLineComment(u, s), base + |s|)
  {
    hide Closer, TriviaLength, TriviaEndsOpen, WrapperEnd;
    var x := [RightOf(form)];
    TriviaStep(s, x, form, depth);
    assert s[|s|..] + x == x;
    CloserAtEnd(Token(TokenEOF, "", NoLiteral, base + |s|), form, depth, TriviaEndsOpen(s), base + |s|);
  }

  /** THE MATCHER REFINES TOKEN DEPTH. Where `s` tokenizes, the byte-level matcher run over `s` and a
      closer stops at the token that closes the wrapper if there is one, else at the added closer if
      it is the one needed and no comment swallows it, and else nowhere. */
  lemma {:induction false} CloserMatchesTokens(u: Unicode, s: string, base: nat, form: Form, depth: int)
    requires form != FormBare && depth >= 1
    requires Scan(u, s, base).Ok?
    ensures Shift(base, Closer(s + [RightOf(form)], LeftOf(form), RightOf(form), depth))
         == WrapperEnd(Scan(u, s, base).value, form, depth, EndsInLineComment(u, s), base + |s|)
    decreases |s|
  {
    hide Closer, NextToken, TriviaLength, WrapperEnd, Scan, EndsInLineComment, LeftOf, RightOf;
    var x := [RightOf(form)];
    ScanTrivia(u, s, base);
    if TriviaLength(s).value == |s| {
      CloserMatchesAtEnd(u, s, base, form, depth);
    } else {
      var t, n, tail, more := ScanStep(u, s, base);
      RoundStep(u, s, n, x, form, depth);
      WrapperEndStep(t.(offset := base + n + t.offset), more, form, depth, EndsInLineComment(u, s), base + |s|);
      if !(t.kind == RightKind(form) && depth == 1) {
        CloserMatchesTokens(u, tail, base + n + t.End(), form, depth + Weight(t, form));
      }
    }
  }

  lemma RightTokenIsOneByte(u: Unicode, s: string, form: Form)
    requires s != "" && NextToken(u, s).Ok? && NextToken(u, s).value.kind == RightKind(form)
    ensures NextToken(u, s).value.offset == 0
  {
    hide Punctuation, StringBody, Split, DecimalValue;
    if Punctuation(s).None? && (s[0] in "\"'@$") {
    } else if Punctuation(s).None? {
      PlainStep(u, s, form);
    }
  }

  /** Where the tokenizer starts a token at a slash, no comment starts. */
  lemma {:induction false} TriviaStopsBeforeToken(s: string)
    requires TriviaLength(s).Ok? && TriviaLength(s).value < |s|
    ensures var rest := s[TriviaLength(s).value..];
            rest[0] == '/' ==> CommentLength(rest) == Ok(0)
    decreases |s|
  {
    hide CommentLength, TriviaLength, DecodeRune;
    var (r, w) := DecodeRune(s);
    if !IsSpace(r) && r != '/' as int {
      TriviaStops(s);
    } else if IsSpace(r) {
      TriviaSpace(s);
      TriviaStopsBeforeToken(s[w..]);
    } else {
      TriviaComment(s);
      var n := CommentLength(s).value;
      if n != 0 {
        TriviaStopsBeforeToken(s[n..]);
      }
    }
  }

  // --- Lex ---

  /** No prefix closes a bracket it did not open, and every bracket is closed. */
  ghost predicate Balanced(tokens: seq<Token>, form: Form) {
    Net(tokens, form) == 0 && !ClosesEarly(tokens, form)
  }

  ghost predicate ClosesEarly(tokens: seq<Token>, form: Form) {
    exists k | 0 <= k <= |tokens| :: Net(tokens[..k], form) < 0
  }

  lemma {:induction false} NetOfPrefix(tokens: seq<Token>, k: nat, form: Form)
    requires 0 < k <= |tokens|
    ensures Net(tokens[..k], form) == Weight(tokens[0], form) + Net(tokens[1..][..k - 1], form)
  {
    assert tokens[..k][1..] == tokens[1..][..k - 1];
  }

  lemma NetOfNone(tokens: seq<Token>, form: Form)
    ensures Net(tokens[..0], form) == 0 && Net([], form) == 0
  {
  }

  lemma TokenCloserStep(tokens: seq<Token>, form: Form, depth: int)
    requires depth >= 1 && form != FormBare
    ensures tokens == [] ==> TokenCloser(tokens, form, depth).None?
    ensures tokens != [] && depth + Weight(tokens[0], form) >= 1 ==>
              TokenCloser(tokens, form, depth) == TokenCloser(tokens[1..], form, depth + Weight(tokens[0], form))
    ensures tokens != [] && depth + Weight(tokens[0], form) < 1 ==> TokenCloser(tokens, form, depth).Some?
  {
  }

  /** The depth reaches zero exactly when some prefix closes `depth` more than it opens. */
  lemma {:induction false} TokenCloserIsFirstZero(tokens: seq<Token>, form: Form, depth: int)
    requires depth >= 1 && form != FormBare
    ensures TokenCloser(tokens, form, depth).Some? <==>
              exists k | 0 <= k <= |tokens| :: depth + Net(tokens[..k], form) <= 0
    decreases |tokens|
  {
    hide TokenCloser, Net, Weight;
    TokenCloserStep(tokens, form, depth);
    NetOfNone(tokens, form);
    if tokens != [] {
      var next := depth + Weight(tokens[0], form);
      if next >= 1 {
        TokenCloserIsFirstZero(tokens[1..], form, next);
        if k :| 0 <= k <= |tokens| && depth + Net(tokens[..k], form) <= 0 {
          NetOfPrefix(tokens, k, form);
          assert next + Net(tokens[1..][..k - 1], form) <= 0;
        }
        if k :| 0 <= k <= |tokens[1..]| && next + Net(tokens[1..][..k], form) <= 0 {
          NetOfPrefix(tokens, k + 1, form);
          assert depth + Net(tokens[..k + 1], form) <= 0;
        }
      } else {
        NetOfPrefix(tokens, 1, form);
        NetOfNone(tokens[1..], form);
        assert depth + Net(tokens[..1], form) <= 0;
      }
    }
  }

  lemma {:induction false} TokenCloserInside(u: Unicode, s: string, base: nat, form: Form, depth: int)
    requires Scan(u, s, base).Ok? && form != FormBare
    ensures var closer := TokenCloser(Scan(u, s, base).value, form, depth);
            closer.Some? ==> closer.value < base + |s|
    decreases |s|
  {
    hide NextToken, TriviaLength, EndsInLineComment, Scan;
    ScanTrivia(u, s, base);
    var tokens := Scan(u, s, base).value;
    if TriviaLength(s).value < |s| {
      var t, n, tail, more := ScanStep(u, s, base);
      assert tokens[1..] == more;
      TokenCloserInside(u, tail, base + n + t.End(), form, depth + Weight(t, form));
      if t.kind == RightKind(form) {
        RightTokenIsOneByte(u, s[n..], form);
      }
    } else {
      ScanAtEnd(u, s, base);
      assert tokens[1..] == [];
    }
  }

  lemma ScanAtEnd(u: Unicode, s: string, base: nat)
    requires TriviaLength(s) == Ok(|s|)
    ensures Scan(u, s, base) == Ok([Token(TokenEOF, "", NoLiteral, base + |s|)])
  {
  }

  lemma LexOfWrapped(u: Unicode, inner: string, form: Form)
    requires form != FormBare
    ensures var text := Opening(form) + inner + [RightOf(form)]; Lex(u, text) == LexWrapped(u, text, form)
  {
    var text := Opening(form) + inner + [RightOf(form)];
    assert text[0] == '@' && text[1] == LeftOf(form);
    TrimKeepsSolidEnds(text);
    assert Opening(form) <= text;
  }

  /** WRAPPER STRIPPING IS EXACT. When `inner` tokenizes, wrapping it and lexing gives back its tokens
      if and only if its brackets balance and it does not end inside a line comment; and when not,
      the error says which way it failed. */
  lemma WrappingIsExact(u: Unicode, inner: string, form: Form)
    requires form != FormBare && Scan(u, inner, 0).Ok?
    ensures var tokens := Scan(u, inner, 0).value;
            var lexed := Lex(u, Opening(form) + inner + [RightOf(form)]);
            && (lexed == Ok((tokens, form)) <==> Balanced(tokens, form) && !EndsInLineComment(u, inner))
            && (ClosesEarly(tokens, form) <==> lexed == Err(UnexpectedAfterExpression))
            && (lexed == Err(UnclosedWrapper) <==>
                  !ClosesEarly(tokens, form) && (Net(tokens, form) != 0 || EndsInLineComment(u, inner)))
  {
    hide Lex, Closer, Scan, EndsInLineComment, TrimSpace, TokenCloser, Net;
    var tokens := Scan(u, inner, 0).value;
    var x := [RightOf(form)];
    var source := Opening(form) + inner + x;
    LexOfWrapped(u, inner, form);
    assert source[2..] == inner + x;
    CloserMatchesTokens(u, inner, 0, form, 1);
    TokenCloserIsFirstZero(tokens, form, 1);
    TokenCloserInside(u, inner, 0, form, 1);
    assert ClosesEarly(tokens, form) <==> TokenCloser(tokens, form, 1).Some?;
    var closer := Closer(inner + x, LeftOf(form), RightOf(form), 1);
    if closer.Ok? {
      var c := closer.value;
      WrappedRemainder(inner, x, c, form);
    }
  }

  /** The byte at `n + 2` closes the wrapper: nothing follows it, and what it holds tokenizes into
      balanced brackets and does not end inside a line comment. */
  ghost predicate Unwraps(u: Unicode, source: string, form: Form, tokens: seq<Token>, n: nat) {
    && n + 3 <= |source| && source[n + 2] == RightOf(form) && TrimSpace(source[n + 3..]) == ""
    && Scan(u, source[2..n + 2], 0) == Ok(tokens)
    && Balanced(tokens, form) && !EndsInLineComment(u, source[2..n + 2])
  }

  /** Balanced tokens put the closer just behind them, and only those do. */
  lemma CloserBehindTokens(u: Unicode, inner: string, form: Form)
    requires form != FormBare && Scan(u, inner, 0).Ok?
    ensures Closer(inner + [RightOf(form)], LeftOf(form), RightOf(form), 1) == Ok(|inner|) <==>
              Balanced(Scan(u, inner, 0).value, form) && !EndsInLineComment(u, inner)
  {
    hide Closer, Scan, EndsInLineComment, TokenCloser;
    CloserMatchesTokens(u, inner, 0, form, 1);
    TokenCloserIsFirstZero(Scan(u, inner, 0).value, form, 1);
    TokenCloserInside(u, inner, 0, form, 1);
    assert ClosesEarly(Scan(u, inner, 0).value, form) <==> TokenCloser(Scan(u, inner, 0).value, form, 1).Some?;
  }

  lemma UnwrappingIsExact(u: Unicode, source: string, form: Form, tokens: seq<Token>)
    requires form != FormBare && Opening(form) <= source
    ensures LexWrapped(u, source, form) == Ok((tokens, form)) <==> exists n: nat :: Unwraps(u, source, form, tokens, n)
  {
    hide Closer, Scan, EndsInLineComment, TrimSpace, Balanced;
    var body := source[2..];
    var closer := Closer(body, LeftOf(form), RightOf(form), 1);
    if LexWrapped(u, source, form) == Ok((tokens, form)) {
      var c := closer.value;
      var inner, rest := source[2..c + 2], source[c + 3..];
      assert body == inner + [RightOf(form)] + rest;
      CloserLocal(inner + [RightOf(form)], rest, LeftOf(form), RightOf(form), 1);
      CloserBehindTokens(u, inner, form);
      assert Unwraps(u, source, form, tokens, c);
    }
    if n: nat :| Unwraps(u, source, form, tokens, n) {
      var inner, rest := source[2..n + 2], source[n + 3..];
      assert body == inner + [RightOf(form)] + rest;
      CloserBehindTokens(u, inner, form);
      CloserExtends(inner + [RightOf(form)], rest, LeftOf(form), RightOf(form), 1);
    }
  }

  /** WHAT LEX ACCEPTS AS WRAPPED, of all texts: exactly those that, trimmed, are a wrapper around
      balanced tokens that do not end inside a line comment; and those tokens are its answer. */
  lemma LexAcceptsExactly(u: Unicode, text: string, form: Form, tokens: seq<Token>)
    requires form != FormBare
    ensures Lex(u, text) == Ok((tokens, form)) <==>
              Opening(form) <= TrimSpace(text) && exists n: nat :: Unwraps(u, TrimSpace(text), form, tokens, n)
  {
    hide LexWrapped, Scan, TrimSpace, Unwraps;
    var source := TrimSpace(text);
    if Opening(form) <= source {
      UnwrappingIsExact(u, source, form, tokens);
    }
    FormsAreKept(u, source);
  }

  lemma FormsAreKept(u: Unicode, source: string)
    ensures forall form | form != FormBare && Opening(form) <= source && LexWrapped(u, source, form).Ok? ::
              LexWrapped(u, source, form).value.1 == form
    ensures "@(" <= source ==> !("@{" <= source)
  {
    hide Closer, Scan, TrimSpace;
    assert "@("[1] != "@{"[1];
  }

  lemma EndClosesNothing(tokens: seq<Token>, form: Form)
    requires |tokens| == 1 && tokens[0].kind == TokenEOF
    ensures !ClosesEarly(tokens, form)
  {
    forall k | 0 <= k <= 1 ensures Net(tokens[..k], form) == 0 {
      assert tokens[..0] == [] && tokens[..1] == [tokens[0]] && [tokens[0]][1..] == [];
    }
  }

  /** The shortest text that tokenizes but cannot be wrapped. */
  lemma LineCommentCannotBeWrapped(u: Unicode)
    ensures Scan(u, "//", 0).Ok? && Lex(u, "@(//)") == Err(UnclosedWrapper)
  {
    hide EndsInLineComment, TriviaLength, TriviaEndsOpen, Scan, Lex, Net, ClosesEarly, DecodeRune;
    var s := "//";
    LoneLineComment();
    EndsOpen(u, s);
    ScanAtEnd(u, s, 0);
    EndClosesNothing(Scan(u, s, 0).value, FormExpression);
    WrappingIsExact(u, s, FormExpression);
    assert Opening(FormExpression) + s + [RightOf(FormExpression)] == "@(//)";
  }

  lemma LoneLineComment()
    ensures TriviaLength("//") == Ok(2) && TriviaEndsOpen("//")
  {
    var s := "//";
    assert s[2..] == "" && CommentLength(s) == Ok(2);
    TriviaComment(s);
    NothingLeft(s[2..]);
  }

  lemma EndsOpen(u: Unicode, s: string)
    requires TriviaLength(s) == Ok(|s|)
    ensures EndsInLineComment(u, s) == TriviaEndsOpen(s)
  {
    hide TriviaLength, TriviaEndsOpen;
  }

  /** What `Lex` finds after a closer at `c`: nothing when that is the last byte, else something. */
  lemma WrappedRemainder(inner: string, x: string, c: nat, form: Form)
    requires form != FormBare && x == [RightOf(form)] && c <= |inner|
    ensures var source := Opening(form) + inner + x;
            && (TrimSpace(source[c + 3..]) == "" <==> c == |inner|)
            && (c == |inner| ==> source[2..c + 2] == inner)
  {
    var source := Opening(form) + inner + x;
    if c == |inner| {
      assert source[c + 3..] == "";
      assert source[2..c + 2] == inner;
    } else {
      assert source[c + 3..] == inner[c + 1..] + x;
      TrimSpaceSolidEnd(inner[c + 1..], RightOf(form));
    }
  }
}
