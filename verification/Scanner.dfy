/** The loops of internal/expression/lex.go, each proved to compute its function in `Lexer`. */
module Scanner {
  import opened Wrappers
  import opened GoStrings
  import opened Lexer

  method SkipString(source: string, start: nat, quote: char, verbatim: bool) returns (r: Result<nat, LexError>)
    requires start < |source|
    ensures r == Shift(start + 1, StringTail(source[start + 1..], quote, verbatim))
  {
    hide StringTail;
    var i := start + 1;
    ghost var goal := Shift(i, StringTail(source[i..], quote, verbatim));
    ghost var rest := source[i..];
    while i < |source|
      invariant start < i <= |source| && rest == source[i..]
      invariant goal == Shift(i, StringTail(rest, quote, verbatim))
    {
      StringTailStep(rest, quote, verbatim);
      assert rest[0] == source[i] && rest[1..] == source[i + 1..];
      assert i + 1 < |source| ==> rest[1] == source[i + 1] && rest[2..] == source[i + 2..];
      if source[i] == quote {
        if verbatim && i + 1 < |source| && source[i + 1] == '"' {
          i := i + 2;
          rest := rest[2..];
          continue;
        }
        return Ok(i + 1);
      }
      if !verbatim && source[i] == '\\' {
        if i + 1 >= |source| {
          return Err(UnterminatedString);
        }
        i := i + 2;
        rest := rest[2..];
        continue;
      }
      if !verbatim && (source[i] == '\n' || source[i] == '\r') {
        return Err(UnterminatedString);
      }
      i := i + 1;
      rest := rest[1..];
    }
    StringTailStep(rest, quote, verbatim);
    return Err(UnterminatedString);
  }

  lemma StringTailStep(s: string, quote: char, verbatim: bool)
    ensures s == "" ==> StringTail(s, quote, verbatim) == Err(UnterminatedString)
    ensures s != "" && s[0] == quote ==>
              StringTail(s, quote, verbatim) ==
              if verbatim && |s| > 1 && s[1] == '"' then Shift(2, StringTail(s[2..], quote, verbatim)) else Ok(1)
    ensures s != "" && s[0] != quote && !verbatim && s[0] == '\\' ==>
              StringTail(s, quote, verbatim) ==
              if |s| < 2 then Err(UnterminatedString) else Shift(2, StringTail(s[2..], quote, verbatim))
    ensures s != "" && s[0] != quote && (verbatim || s[0] != '\\') ==>
              StringTail(s, quote, verbatim) ==
              if !verbatim && NewlineByte(s[0]) then Err(UnterminatedString)
              else Shift(1, StringTail(s[1..], quote, verbatim))
  {
  }

  method SkipComment(source: string, start: nat) returns (r: Result<nat, LexError>)
    requires start < |source|
    ensures r == Shift(start, CommentLength(source[start..]))
  {
    hide LineTail, BlockTail, CommentLength;
    ghost var s := source[start..];
    CommentForms(s);
    if start + 1 >= |source| {
      return Ok(start);
    }
    assert s[1] == source[start + 1] && s[2..] == source[start + 2..];
    if source[start + 1] == '/' {
      var i := start + 2;
      ghost var rest := s[2..];
      while i < |source| && source[i] != '\n'
        invariant start + 2 <= i <= |source| && rest == source[i..]
        invariant LineTail(s[2..]) == i - start - 2 + LineTail(rest)
      {
        LineTailStep(rest);
        i := i + 1;
        rest := rest[1..];
      }
      LineTailStep(rest);
      return Ok(i);
    } else if source[start + 1] == '*' {
      var i := start + 2;
      ghost var rest := s[2..];
      while i + 1 < |source|
        invariant start + 2 <= i <= |source| && rest == source[i..]
        invariant Shift(2, BlockTail(s[2..])) == Shift(i - start, BlockTail(rest))
      {
        BlockTailStep(rest);
        if source[i] == '*' && source[i + 1] == '/' {
          return Ok(i + 2);
        }
        i := i + 1;
        rest := rest[1..];
      }
      BlockTailStep(rest);
      return Err(UnterminatedComment);
    } else {
      return Ok(start);
    }
  }

  lemma CommentForms(s: string)
    ensures |s| < 2 || (s[1] != '/' && s[1] != '*') ==> CommentLength(s) == Ok(0)
    ensures |s| >= 2 && s[1] == '/' ==> CommentLength(s) == Ok(2 + LineTail(s[2..]))
    ensures |s| >= 2 && s[1] == '*' ==> CommentLength(s) == Shift(2, BlockTail(s[2..]))
  {
  }

  lemma LineTailStep(s: string)
    ensures s == "" || s[0] == '\n' ==> LineTail(s) == 0
    ensures s != "" && s[0] != '\n' ==> LineTail(s) == 1 + LineTail(s[1..])
  {
  }

  lemma BlockTailStep(s: string)
    ensures |s| < 2 ==> BlockTail(s) == Err(UnterminatedComment)
    ensures |s| >= 2 ==>
              BlockTail(s) == if s[0] == '*' && s[1] == '/' then Ok(2) else Shift(1, BlockTail(s[1..]))
  {
  }

  /** The cases of the matcher's switch that are no bracket. */
  method SkipOne(source: string, i: nat) returns (r: Result<nat, LexError>)
    requires i < |source|
    ensures r == Shift(i, Skip(source[i..]))
    decreases |source| - i, 0
  {
    hide Split, StringTail, CommentLength;
    ghost var s := source[i..];
    if source[i] == '"' || source[i] == '\'' {
      r := SkipString(source, i, source[i], false);
    } else if source[i] == '$' && i + 1 < |source| && source[i + 1] == '"' {
      var split := SplitInterpolation(source[i + 2..]);
      return if split.Err? then Err(split.error) else Ok(i + 2 + split.value.1 + 1);
    } else if source[i] == '@' && i + 1 < |source| && source[i + 1] == '"' {
      r := SkipString(source, i + 1, '"', true);
    } else if source[i] == '/' {
      var next := SkipComment(source, i);
      if next.Ok? && next.value == i {
        return Ok(i + 1);
      }
      return next;
    } else {
      return Ok(i + 1);
    }
  }

  method MatchingCloser(source: string, open: nat, left: char, right: char) returns (r: Result<nat, LexError>)
    requires open <= |source| && left != right
    ensures r == Shift(open, Closer(source[open..], left, right, 0))
    decreases |source| - open, 1
  {
    hide Closer, Skip, Split;
    ghost var goal := Shift(open, Closer(source[open..], left, right, 0));
    var depth := 0;
    var i := open;
    ghost var rest := source[open..];
    while i < |source|
      invariant open <= i <= |source| && rest == source[i..]
      invariant goal == Shift(i, Closer(rest, left, right, depth))
    {
      ghost var at := i;
      if source[i] == left {
        CloserLeft(rest, left, right, depth);
        depth := depth + 1;
        i := i + 1;
      } else if source[i] == right {
        CloserRight(rest, left, right, depth);
        depth := depth - 1;
        if depth == 0 {
          return Ok(i);
        }
        i := i + 1;
      } else {
        CloserSkip(rest, left, right, depth);
        var next := SkipOne(source, i);
        if next.Err? {
          return Err(next.error);
        }
        i := next.value;
      }
      rest := rest[i - at..];
    }
    CloserEnd(left, right, depth);
    return Err(UnclosedWrapper);
  }

  /** The cases of the splitter's switch, up to the text or hole each adds. */
  method StepOne(body: string, i: nat) returns (r: Result<(Part, nat), LexError>)
    requires i < |body| && body[i] != '"'
    ensures r == Step(body[i..])
    decreases |body| - i, 2
  {
    hide Closer, DecodeEscape;
    ghost var s := body[i..];
    if body[i] == '{' {
      if i + 1 < |body| && body[i + 1] == '{' {
        return Ok((Text("{"), 2));
      }
      var closeAt := MatchingCloser(body, i, '{', '}');
      CloserLeft(s, '{', '}', 0);
      if closeAt.Err? {
        return Err(UnclosedHole);
      }
      assert body[i + 1..closeAt.value] == s[1..closeAt.value - i];
      return Ok((Hole(body[i + 1..closeAt.value]), closeAt.value + 1 - i));
    } else if body[i] == '}' {
      if i + 1 < |body| && body[i + 1] == '}' {
        return Ok((Text("}"), 2));
      }
      return Err(UnmatchedBrace);
    } else if body[i] == '\\' {
      if i + 1 >= |body| {
        return Err(UnterminatedString);
      }
      var escape := DecodeEscape(body[i + 1..]);
      if escape.Err? {
        return Err(escape.error);
      }
      return Ok((Text(escape.value.0), 1 + escape.value.1));
    } else if body[i] == '\n' || body[i] == '\r' {
      return Err(UnterminatedString);
    } else {
      return Ok((Text([body[i]]), 1));
    }
  }

  method SplitInterpolation(body: string) returns (r: Result<Pieces, LexError>)
    ensures r == Split(body, "")
    decreases |body|, 3
  {
    hide Step, Split;
    var parts: seq<Part> := [];
    var literal := "";
    var i := 0;
    ghost var rest := body;
    FurtherAssociates([], 0, [], 0, Split(body, ""));
    while i < |body|
      invariant 0 <= i <= |body| && rest == body[i..]
      invariant Split(body, "") == Further(parts, i, Split(rest, literal))
    {
      SplitStops(rest, literal);
      if body[i] == '"' {
        return Ok((parts + Flush(literal), i));
      }
      var step := StepOne(body, i);
      if step.Err? {
        return Err(step.error);
      }
      var (part, n) := step.value;
      SplitStep(rest, literal);
      match part {
        case Text(text) =>
          FurtherAssociates(parts, i, [], n, Split(rest[n..], literal + text));
          assert parts + [] == parts;
          literal := literal + text;
        case Hole(_) =>
          FurtherAssociates(parts, i, Flush(literal) + [part], n, Split(rest[n..], ""));
          assert parts + (Flush(literal) + [part]) == parts + Flush(literal) + [part];
          parts := parts + Flush(literal) + [part];
          literal := "";
      }
      rest := rest[n..];
      i := i + n;
    }
    SplitStops(rest, literal);
    return Err(UnterminatedString);
  }

  method SkipTrivia(source: string, start: nat) returns (r: Result<nat, LexError>)
    requires start <= |source|
    ensures r == Shift(start, TriviaLength(source[start..]))
  {
    hide CommentLength, DecodeRune, TriviaLength;
    var pos := start;
    ghost var goal := Shift(start, TriviaLength(source[start..]));
    ghost var rest := source[start..];
    while pos < |source|
      invariant start <= pos <= |source| && rest == source[pos..]
      invariant goal == Shift(pos, TriviaLength(rest))
    {
      var (rune, width) := DecodeRune(source[pos..]);
      if IsSpace(rune) {
        TriviaSpace(rest);
        pos := pos + width;
        rest := rest[width..];
        continue;
      }
      if rune != '/' as int {
        TriviaStops(rest);
        return Ok(pos);
      }
      TriviaComment(rest);
      var next := SkipComment(source, pos);
      if next.Err? {
        return Err(next.error);
      }
      if next.value == pos {
        return Ok(pos);
      }
      rest := rest[next.value - pos..];
      pos := next.value;
    }
    TriviaStops(rest);
    return Ok(pos);
  }

  /** The cases of the string loop's body, up to the text each adds. */
  method StringStepOne(source: string, pos: nat, quote: char, verbatim: bool)
    returns (r: Result<(string, nat), LexError>)
    requires pos < |source| && !AtQuote(source[pos..], quote, verbatim)
    ensures r == StringStep(source[pos..], quote, verbatim)
  {
    hide DecodeEscape;
    ghost var s := source[pos..];
    var (rune, width) := DecodeRune(source[pos..]);
    if rune == quote as int {
      return Ok(("\"", 2));
    }
    assert source[pos..pos + width] == s[..width];
    if verbatim {
      return Ok((source[pos..pos + width], width));
    }
    if rune == '\n' as int || rune == '\r' as int {
      return Err(UnterminatedString);
    }
    if rune != '\\' as int {
      return Ok((source[pos..pos + width], width));
    }
    if pos + width >= |source| {
      return Err(UnterminatedString);
    }
    var escape := DecodeEscape(source[pos + width..]);
    if escape.Err? {
      return Err(escape.error);
    }
    return Ok((escape.value.0, width + escape.value.1));
  }

  /** The loop of `scanString`: the decoded body, and the position after the closing quote. */
  method ScanBody(source: string, start: nat, quote: char, verbatim: bool)
    returns (r: Result<(string, nat), LexError>)
    requires start <= |source|
    ensures r == Append("", start, StringBody(source[start..], quote, verbatim))
  {
    hide DecodeRune, StringStep;
    var body := "";
    var pos := start;
    ghost var goal := StringBody(source[start..], quote, verbatim);
    ghost var rest := source[start..];
    AppendAssociates("", 0, "", 0, goal);
    while pos < |source|
      invariant start <= pos <= |source| && rest == source[pos..]
      invariant goal == Append(body, pos - start, StringBody(rest, quote, verbatim))
    {
      if AtQuote(source[pos..], quote, verbatim) {
        assert body + "" == body;
        assert "" + body == body;
        return Ok((body, pos + DecodeRune(source[pos..]).1));
      }
      var step := StringStepOne(source, pos, quote, verbatim);
      if step.Err? {
        return Err(step.error);
      }
      var (text, n) := step.value;
      AppendAssociates(body, pos - start, text, n, StringBody(rest[n..], quote, verbatim));
      body := body + text;
      rest := rest[n..];
      pos := pos + n;
    }
    return Err(UnterminatedString);
  }

  /** A token read `start` bytes into the source. */
  function Placed(start: nat, r: Result<Token, LexError>): Result<Token, LexError> {
    match r
    case Ok(t) => Ok(t.(offset := start + t.offset))
    case Err(e) => Err(e)
  }

  /** The scanner: a source and a position that only moves forward. */
  class Cursor {
    const source: string
    var pos: nat

    constructor (source: string)
      ensures this.source == source && pos == 0
    {
      this.source := source;
      pos := 0;
    }

    ghost predicate Valid()
      reads this
    {
      pos <= |source|
    }

    ghost function Rest(): string
      requires Valid()
      reads this
    {
      source[pos..]
    }

    method SkipSpaceAndComments() returns (r: Result<(), LexError>)
      requires Valid()
      modifies this
      ensures Valid()
      ensures var skipped := TriviaLength(old(Rest()));
              if skipped.Ok? then r == Ok(()) && pos == old(pos) + skipped.value else r == Err(skipped.error)
    {
      var next := SkipTrivia(source, pos);
      if next.Err? {
        return Err(next.error);
      }
      pos := next.value;
      return Ok(());
    }

    /** Consumes the digits at the cursor, which is `k` bytes past `start`. */
    method Digits(ghost start: nat, ghost k: nat)
      requires Valid() && start + k == pos
      modifies this
      ensures Valid() && pos == start + DigitsFrom(source[start..], k)
    {
      ghost var s := source[start..];
      while pos < |source| && IsAsciiDigit(source[pos])
        invariant old(pos) <= pos <= |source|
        invariant DigitsFrom(s, k) == DigitsFrom(s, pos - start)
      {
        pos := pos + 1;
      }
    }

    method ScanIdent(u: Unicode) returns (t: Token)
      requires Valid() && pos < |source|
      modifies this
      ensures Valid() && pos == old(pos) + IdentLength(u, old(Rest()))
      ensures t == Identifier(old(Rest())[..pos - old(pos)]).(offset := old(pos))
    {
      hide DecodeRune, IdentRune;
      var start := pos;
      ghost var rest := source[pos..];
      while pos < |source|
        invariant start <= pos <= |source| && rest == source[pos..]
        invariant IdentLength(u, source[start..]) == pos - start + IdentLength(u, rest)
        decreases |source| - pos
      {
        var (rune, width) := DecodeRune(source[pos..]);
        if !IdentRune(u, rune) {
          break;
        }
        pos := pos + width;
        rest := rest[width..];
      }
      assert source[start..pos] == source[start..][..pos - start];
      return Identifier(source[start..pos]).(offset := start);
    }

    /** The digits and fraction of a number. */
    method ScanMantissa() returns (isDouble: bool)
      requires Valid() && pos < |source|
      requires IsAsciiDigit(source[pos]) || (source[pos] == '.' && IsAsciiDigit(PeekAt(source, pos + 1)))
      modifies this
      ensures Valid() && (pos - old(pos), isDouble) == MantissaEnd(old(Rest()))
    {
      ghost var start := pos;
      isDouble := false;
      if source[pos] == '.' {
        isDouble := true;
        pos := pos + 1;
      }
      Digits(start, pos - start);
      if PeekAt(source, pos) == '.' && IsAsciiDigit(PeekAt(source, pos + 1)) {
        isDouble := true;
        pos := pos + 1;
        Digits(start, pos - start);
      }
    }

    method ScanNumber() returns (r: Result<Token, LexError>)
      requires Valid() && pos < |source|
      requires IsAsciiDigit(source[pos]) || (source[pos] == '.' && IsAsciiDigit(PeekAt(source, pos + 1)))
      modifies this
      ensures Valid() && r == Placed(old(pos), NumberToken(old(Rest())))
      ensures r.Ok? ==> pos == r.value.End()
    {
      hide DecimalValue, DigitsFrom, MantissaEnd;
      var start := pos;
      ghost var s := source[start..];
      var isDouble := ScanMantissa();
      if PeekAt(source, pos) in "eE" {
        isDouble := true;
        pos := pos + 1;
        if PeekAt(source, pos) in "+-" {
          pos := pos + 1;
        }
        if !IsAsciiDigit(PeekAt(source, pos)) {
          return Err(InvalidExponent);
        }
        Digits(start, pos - start);
      }
      var lexeme := source[start..pos];
      assert lexeme == s[..pos - start];
      if isDouble {
        return Ok(Token(TokenNumber, lexeme, DoubleLiteral(lexeme), start));
      }
      var value := DecimalValue(lexeme);
      if value > MAX_INT64 {
        return Err(InvalidNumber);
      }
      return Ok(Token(TokenNumber, lexeme, IntLiteral(value), start));
    }

    method ScanString(quote: char, verbatim: bool, ghost lead: nat) returns (r: Result<Token, LexError>)
      requires Valid() && pos < |source| && lead <= pos
      modifies this
      ensures Valid() && r == Placed(old(pos) - lead, StringToken(old(Rest()), quote, verbatim, lead))
      ensures r.Ok? ==> pos == r.value.End()
    {
      hide StringBody;
      var start := pos;
      ghost var s := source[start..];
      var body := ScanBody(source, pos + 1, quote, verbatim);
      assert source[start + 1..] == s[1..];
      if body.Err? {
        return Err(body.error);
      }
      pos := body.value.1;
      assert source[start..pos] == s[..pos - start];
      ghost var (text, n) := StringBody(s[1..], quote, verbatim).value;
      assert "" + text == text;
      assert pos == start + 1 + n;
      return Ok(Token(TokenString, source[start..pos], StringLiteral(body.value.0), start));
    }

    method ScanInterpolated() returns (r: Result<Token, LexError>)
      requires Valid() && pos + 2 <= |source|
      modifies this
      ensures Valid() && r == Placed(old(pos), InterpolatedToken(old(Rest())))
      ensures r.Ok? ==> pos == r.value.End()
    {
      hide Split;
      var start := pos;
      var split := SplitInterpolation(source[pos + 2..]);
      assert source[start + 2..] == source[start..][2..];
      if split.Err? {
        return Err(split.error);
      }
      pos := pos + 2 + split.value.1 + 1;
      assert source[start..pos] == source[start..][..pos - start];
      return Ok(Token(TokenInterpolated, source[start..pos], NoLiteral, start));
    }

    /** The tokenizer's switch. */
    method Next(u: Unicode) returns (r: Result<Token, LexError>)
      requires Valid() && pos < |source|
      modifies this
      ensures Valid() && r == Placed(old(pos), NextToken(u, old(Rest())))
      ensures r.Ok? ==> pos == r.value.End()
    {
      hide DecodeRune, NumberToken, StringToken, InterpolatedToken, Identifier, Punctuation;
      var start := pos;
      ghost var s := source[start..];
      var (rune, _) := DecodeRune(source[pos..]);
      var operator := Punctuation(source[pos..]);
      if operator.Some? {
        pos := pos + |operator.value.1|;
        return Ok(Token(operator.value.0, operator.value.1, NoLiteral, start));
      }
      var c, next := source[pos], PeekAt(source, pos + 1);
      assert next == PeekAt(s, 1) && c == s[0];
      if IsAsciiDigit(c) || c == '.' {
        r := ScanNumber();
      } else if c == '"' || c == '\'' {
        r := ScanString(c, false, 0);
      } else if c == '@' && next == '"' {
        pos := pos + 1;
        assert Rest() == s[1..];
        r := ScanString('"', true, 1);
      } else if c == '$' && next == '"' {
        r := ScanInterpolated();
      } else if rune == '_' as int || IsLetter(u, rune) {
        var t := ScanIdent(u);
        return Ok(t);
      } else {
        return Err(UnexpectedCharacter);
      }
    }
  }

  method ScanAll(u: Unicode, source: string) returns (r: Result<seq<Token>, LexError>)
    ensures r == Scan(u, source, 0)
  {
    hide TriviaLength, NextToken, Scan, Prepend;
    var s := new Cursor(source);
    var tokens: seq<Token> := [];
    ghost var rest := source;
    PrependNone(Scan(u, source, 0));
    while true
      invariant s.source == source && s.Valid() && rest == s.Rest()
      invariant Scan(u, source, 0) == Prepend(tokens, Scan(u, rest, s.pos))
      decreases |source| - s.pos
    {
      ghost var at := s.pos;
      ScanStops(u, rest, at, tokens);
      var skipped := s.SkipSpaceAndComments();
      if skipped.Err? {
        return Err(skipped.error);
      }
      if s.pos >= |source| {
        return Ok(tokens + [Token(TokenEOF, "", NoLiteral, s.pos)]);
      }
      ghost var start := s.pos;
      assert s.Rest() == rest[start - at..];
      ScanGoesOn(u, rest, at, tokens, start - at);
      var token := s.Next(u);
      if token.Err? {
        return Err(token.error);
      }
      rest := rest[s.pos - at..];
      tokens := tokens + [token.value];
    }
  }

  lemma PrependNone(r: Result<seq<Token>, LexError>)
    ensures Prepend([], r) == r
  {
    assert r.Ok? ==> [] + r.value == r.value;
  }

  lemma ScanStops(u: Unicode, s: string, base: nat, tokens: seq<Token>)
    ensures TriviaLength(s).Err? ==> Prepend(tokens, Scan(u, s, base)) == Err(TriviaLength(s).error)
    ensures TriviaLength(s) == Ok(|s|) ==>
              Prepend(tokens, Scan(u, s, base)) == Ok(tokens + [Token(TokenEOF, "", NoLiteral, base + |s|)])
  {
    hide TriviaLength, NextToken;
  }

  lemma ScanGoesOn(u: Unicode, s: string, base: nat, tokens: seq<Token>, k: nat)
    requires TriviaLength(s) == Ok(k) && k < |s|
    ensures var next := NextToken(u, s[k..]);
            if next.Err? then Prepend(tokens, Scan(u, s, base)) == Err(next.error)
            else
              var end := k + next.value.End();
              Prepend(tokens, Scan(u, s, base))
              == Prepend(tokens + [next.value.(offset := base + k + next.value.offset)], Scan(u, s[end..], base + end))
  {
    hide TriviaLength, NextToken;
    var next := NextToken(u, s[k..]);
    if next.Ok? {
      var end := k + next.value.End();
      PrependAssociates(tokens, [next.value.(offset := base + k + next.value.offset)], Scan(u, s[end..], base + end));
    }
  }

  lemma PrependAssociates(some: seq<Token>, more: seq<Token>, r: Result<seq<Token>, LexError>)
    ensures Prepend(some, Prepend(more, r)) == Prepend(some + more, r)
  {
    if r.Ok? {
      assert some + (more + r.value) == some + more + r.value;
    }
  }

  /** `Lex`: strip the wrapper, then tokenize what it held. */
  method LexExpression(u: Unicode, text: string) returns (r: LexResult)
    ensures r == Lex(u, text)
  {
    hide TrimSpace, Closer, Scan;
    var source := TrimSpace(text);
    var form := FormBare;
    var inner := source;
    if "@(" <= source || "@{" <= source {
      form := if "@(" <= source then FormExpression else FormBlock;
      var closeAt := MatchingCloser(source, 1, LeftOf(form), RightOf(form));
      CloserLeft(source[1..], LeftOf(form), RightOf(form), 0);
      assert source[1..][1..] == source[2..];
      if closeAt.Err? {
        return Err(closeAt.error);
      }
      if TrimSpace(source[closeAt.value + 1..]) != "" {
        return Err(UnexpectedAfterExpression);
      }
      inner := source[2..closeAt.value];
    } else if "@" <= source {
      return Err(InvalidWrapper);
    }
    var tokens := ScanAll(u, inner);
    return Tokens(tokens, form);
  }
}
