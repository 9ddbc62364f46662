/** The tokenizer loses nothing: its tokens are slices of the source, in order, and between them
    there is nothing but white space and comments. */
module Coverage {
  import opened Wrappers
  import opened GoStrings
  import opened Lexer
  import W = Wrapping

  /** The first `k` bytes of `s` are one white-space rune, one line comment up to its line feed, or
      one block comment up to its first closer. */
  ghost predicate TriviaPiece(s: string, k: nat)
    requires 0 < k <= |s|
  {
    || (IsSpace(DecodeRune(s).0) && k == DecodeRune(s).1)
    || (k >= 2 && "//" <= s && '\n' !in s[..k] && (k < |s| ==> s[k] == '\n'))
    || (k >= 4 && "/*" <= s && ClosesComment(s, k - 2) && forall j | 2 <= j < k - 2 :: !ClosesComment(s, j))
  }

  predicate ClosesComment(s: string, j: nat) {
    j + 1 < |s| && s[j] == '*' && s[j + 1] == '/'
  }

  /** The first `n` bytes of `s` are white space and comments. */
  ghost predicate TriviaRun(s: string, n: nat)
    requires n <= |s|
    decreases n
  {
    n == 0 || exists k | 0 < k <= n :: TriviaPiece(s, k) && TriviaRun(s[k..], n - k)
  }

  lemma {:induction false} BlockTailIsFirstCloser(s: string)
    requires BlockTail(s).Ok?
    ensures ClosesComment(s, BlockTail(s).value - 2)
    ensures forall j | 0 <= j < BlockTail(s).value - 2 :: !ClosesComment(s, j)
    decreases |s|
  {
    if !ClosesComment(s, 0) {
      BlockTailIsFirstCloser(s[1..]);
      forall j | 0 <= j < BlockTail(s).value - 2 ensures !ClosesComment(s, j) {
        assert j > 0 ==> ClosesComment(s, j) == ClosesComment(s[1..], j - 1);
      }
    }
  }

  lemma {:induction false} LineTailHasNoNewline(s: string)
    ensures '\n' !in s[..LineTail(s)]
  {
    if s != "" && s[0] != '\n' {
      LineTailHasNoNewline(s[1..]);
      assert s[..LineTail(s)] == [s[0]] + s[1..][..LineTail(s[1..])];
    }
  }

  lemma CommentIsPiece(s: string)
    requires s != "" && s[0] == '/' && CommentLength(s).Ok? && CommentLength(s).value > 0
    ensures TriviaPiece(s, CommentLength(s).value)
  {
    var n := CommentLength(s).value;
    if s[1] == '/' {
      LineTailHasNoNewline(s[2..]);
      assert s[..n] == "//" + s[2..][..n - 2];
    } else {
      BlockTailIsFirstCloser(s[2..]);
      forall j | 2 <= j < n - 2 ensures !ClosesComment(s, j) {
        assert ClosesComment(s, j) == ClosesComment(s[2..], j - 2);
      }
    }
  }

  lemma {:induction false} TriviaLengthIsRun(s: string)
    requires TriviaLength(s).Ok?
    ensures TriviaRun(s, TriviaLength(s).value)
    decreases |s|
  {
    hide CommentLength, DecodeRune, TriviaPiece, TriviaLength;
    if s == "" || (!IsSpace(DecodeRune(s).0) && DecodeRune(s).0 != '/' as int) {
      TriviaStops(s);
    } else if IsSpace(DecodeRune(s).0) {
      var w := DecodeRune(s).1;
      TriviaSpace(s);
      TriviaLengthIsRun(s[w..]);
      SpaceIsPiece(s);
    } else {
      TriviaComment(s);
      var n := CommentLength(s).value;
      if n != 0 {
        TriviaLengthIsRun(s[n..]);
        CommentIsPiece(s);
      }
    }
  }

  lemma SpaceIsPiece(s: string)
    requires s != "" && IsSpace(DecodeRune(s).0)
    ensures TriviaPiece(s, DecodeRune(s).1)
  {
  }

  lemma {:induction false} LineTailIs(s: string, n: nat)
    requires n <= |s| && '\n' !in s[..n] && (n < |s| ==> s[n] == '\n')
    ensures LineTail(s) == n
    decreases n
  {
    if n > 0 {
      assert s[0] == s[..n][0] && s[1..][..n - 1] == s[..n][1..];
      LineTailIs(s[1..], n - 1);
    }
  }

  lemma {:induction false} BlockTailIs(s: string, n: nat)
    requires ClosesComment(s, n) && forall j | 0 <= j < n :: !ClosesComment(s, j)
    ensures BlockTail(s) == Ok(n + 2)
    decreases n
  {
    if n > 0 {
      assert !ClosesComment(s, 0);
      forall j | 0 <= j <= n - 1 ensures ClosesComment(s[1..], j) == ClosesComment(s, j + 1) {
      }
      BlockTailIs(s[1..], n - 1);
    }
  }

  /** Every piece of trivia is skipped. */
  lemma PieceIsSkipped(s: string, k: nat)
    requires 0 < k <= |s| && TriviaPiece(s, k)
    ensures TriviaLength(s) == Shift(k, TriviaLength(s[k..]))
  {
    hide TriviaLength;
    if IsSpace(DecodeRune(s).0) && k == DecodeRune(s).1 {
      TriviaSpace(s);
    } else {
      CommentIsSkipped(s, k);
      TriviaComment(s);
    }
  }

  lemma CommentIsSkipped(s: string, k: nat)
    requires 0 < k <= |s| && TriviaPiece(s, k) && !(IsSpace(DecodeRune(s).0) && k == DecodeRune(s).1)
    ensures DecodeRune(s).0 == '/' as int && CommentLength(s) == Ok(k)
  {
    assert s[0] == '/';
    var body := s[2..];
    if s[1] == '/' {
      assert '\n' !in body[..k - 2] by {
        assert body[..k - 2] == s[..k][2..];
      }
      LineTailIs(body, k - 2);
    } else {
      forall j | 0 <= j <= k - 4 ensures ClosesComment(body, j) == ClosesComment(s, j + 2) {
      }
      BlockTailIs(body, k - 4);
    }
  }

  /** So a text that is nothing else is skipped whole. */
  lemma {:induction false} RunIsSkipped(s: string)
    requires TriviaRun(s, |s|)
    ensures TriviaLength(s) == Ok(|s|)
    decreases |s|
  {
    hide TriviaPiece, TriviaLength;
    if s == "" {
      TriviaStops(s);
    } else {
      var k :| 0 < k <= |s| && TriviaPiece(s, k) && TriviaRun(s[k..], |s| - k);
      RunIsSkipped(s[k..]);
      PieceIsSkipped(s, k);
    }
  }

  /** White space and comments in front of a token: a line comment is ended by its line feed. */
  ghost predicate TriviaGap(s: string)
    decreases |s|
  {
    s == "" || exists k | 0 < k <= |s| :: TriviaPiece(s, k) && !(k == |s| && "//" <= s) && TriviaGap(s[k..])
  }

  lemma {:induction false} GapIsSkipped(s: string)
    requires TriviaGap(s)
    ensures TriviaLength(s) == Ok(|s|) && !W.TriviaEndsOpen(s)
    decreases |s|
  {
    hide TriviaPiece, TriviaLength, W.TriviaEndsOpen;
    if s == "" {
      TriviaStops(s);
      GapEndsClosed(s, 0);
    } else {
      var k :| 0 < k <= |s| && TriviaPiece(s, k) && !(k == |s| && "//" <= s) && TriviaGap(s[k..]);
      GapIsSkipped(s[k..]);
      PieceIsSkipped(s, k);
      GapEndsClosed(s, k);
    }
  }

  lemma GapEndsClosed(s: string, k: nat)
    requires s == "" || (0 < k <= |s| && TriviaPiece(s, k) && !(k == |s| && "//" <= s) && !W.TriviaEndsOpen(s[k..]))
    ensures !W.TriviaEndsOpen(s)
  {
    if s != "" && !(IsSpace(DecodeRune(s).0) && k == DecodeRune(s).1) {
      hide TriviaPiece, CommentLength;
      CommentIsSkipped(s, k);
    }
  }

  /** The bytes from `from` to the token are white space and comments, and for a verbatim string the
      `@` that introduces it, which is no part of its lexeme. */
  ghost predicate GapBefore(source: string, from: nat, t: Token)
    requires from <= t.offset <= |source|
  {
    || TriviaRun(source[from..], t.offset - from)
    || (&& t.kind == TokenString && from < t.offset && source[t.offset - 1] == '@' && "\"" <= t.lexeme
        && TriviaRun(source[from..], t.offset - 1 - from))
  }

  /** The tokens cover the source from `from` on. */
  ghost predicate Covers(source: string, from: nat, tokens: seq<Token>)
    requires from <= |source|
    decreases |tokens|
  {
    && tokens != []
    && from <= tokens[0].offset <= tokens[0].End() <= |source|
    && GapBefore(source, from, tokens[0])
    && source[tokens[0].offset..tokens[0].End()] == tokens[0].lexeme
    && (tokens[0].kind == TokenEOF <==> |tokens| == 1)
    && if |tokens| == 1 then tokens[0].offset == |source|
       else tokens[0].lexeme != "" && Covers(source, tokens[0].End(), tokens[1..])
  }

  /** A token is the slice of its input at its offset; the offset is 1 for a verbatim string's `@`. */
  lemma TokenIsSlice(u: Unicode, s: string)
    requires s != "" && NextToken(u, s).Ok?
    ensures var t := NextToken(u, s).value;
            && t.lexeme != "" && t.kind != TokenEOF && s[t.offset..t.End()] == t.lexeme
            && (t.offset == 0 || (t.offset == 1 && t.kind == TokenString && s[0] == '@' && "\"" <= t.lexeme))
  {
    hide StringBody, Split, NumberToken, Punctuation;
    PunctuationIsNoEnd(s);
  }

  lemma PunctuationIsNoEnd(s: string)
    requires s != ""
    ensures Punctuation(s).Some? ==> Punctuation(s).value.0 != TokenEOF
  {
  }

  lemma SliceOfRest(source: string, from: nat, n: nat, i: nat, j: nat)
    requires i <= j && from + n + j <= |source|
    ensures source[from..][n..][i..j] == source[from + n + i..from + n + j]
  {
  }

  lemma {:induction false} ScanCovers(u: Unicode, source: string, from: nat)
    requires from <= |source| && Scan(u, source[from..], from).Ok?
    ensures Covers(source, from, Scan(u, source[from..], from).value)
    decreases |source| - from
  {
    hide NextToken, TriviaLength, Scan, TriviaRun, Covers;
    var s := source[from..];
    W.ScanTrivia(u, s, from);
    TriviaLengthIsRun(s);
    if TriviaLength(s).value == |s| {
      W.ScanAtEnd(u, s, from);
      CoversEnd(source, from);
    } else {
      var t, n, tail, more := W.ScanStep(u, s, from);
      TokenIsSlice(u, s[n..]);
      var placed := t.(offset := from + n + t.offset);
      SliceOfRest(source, from, n, t.offset, t.End());
      assert source[placed.End()..] == tail by {
        assert s[n + t.End()..] == source[from + (n + t.End())..];
      }
      ScanCovers(u, source, placed.End());
      CoversStep(source, from, placed, more);
    }
  }

  lemma CoversEnd(source: string, from: nat)
    requires from <= |source| && TriviaRun(source[from..], |source| - from)
    ensures Covers(source, from, [Token(TokenEOF, "", NoLiteral, |source|)])
  {
  }

  lemma CoversStep(source: string, from: nat, t: Token, more: seq<Token>)
    requires from <= t.offset <= t.End() <= |source| && GapBefore(source, from, t)
    requires source[t.offset..t.End()] == t.lexeme != "" && t.kind != TokenEOF
    requires Covers(source, t.End(), more)
    ensures Covers(source, from, [t] + more)
  {
    assert ([t] + more)[1..] == more;
  }

  lemma {:induction false} CoversEachToken(source: string, from: nat, tokens: seq<Token>, i: nat)
    requires from <= |source| && Covers(source, from, tokens) && i < |tokens|
    ensures var t := tokens[i];
            var gap := if i == 0 then from else tokens[i - 1].End();
            && gap <= t.offset <= t.End() <= |source|
            && t.lexeme == source[t.offset..t.End()]
            && GapBefore(source, gap, t)
            && (t.kind == TokenEOF <==> i == |tokens| - 1)
            && (if t.kind == TokenEOF then t.offset == |source| else t.lexeme != "")
    decreases i
  {
    if i > 0 {
      CoversEachToken(source, tokens[0].End(), tokens[1..], i - 1);
    }
  }

  /** THE TOKENIZER COVERS THE SOURCE. On success every token is the slice of the source at its
      offset, offsets strictly increase, what lies between two tokens is trivia (and the `@` of a
      verbatim string), and the one end token stands at the end. */
  lemma TokensCoverSource(u: Unicode, source: string)
    requires Scan(u, source, 0).Ok?
    ensures var tokens := Scan(u, source, 0).value;
            && (forall i | 0 <= i < |tokens| ::
                  && tokens[i].End() <= |source|
                  && tokens[i].lexeme == source[tokens[i].offset..tokens[i].End()]
                  && (tokens[i].kind == TokenEOF <==> i == |tokens| - 1))
            && (forall i | 0 <= i < |tokens| ::
                  var from := if i == 0 then 0 else tokens[i - 1].End();
                  from <= tokens[i].offset <= |source| && GapBefore(source, from, tokens[i]))
            && (forall i, j | 0 <= i < j < |tokens| :: tokens[i].offset < tokens[j].offset)
            && tokens[|tokens| - 1].offset == |source|
  {
    hide Scan, Covers, GapBefore;
    var tokens := Scan(u, source, 0).value;
    assert source[0..] == source;
    ScanCovers(u, source, 0);
    forall i | 0 <= i < |tokens|
      ensures tokens[i].offset <= tokens[i].End() <= |source|
      ensures tokens[i].lexeme == source[tokens[i].offset..tokens[i].End()]
      ensures tokens[i].kind == TokenEOF <==> i == |tokens| - 1
      ensures tokens[i].kind == TokenEOF ==> tokens[i].offset == |source|
      ensures tokens[i].kind != TokenEOF ==> tokens[i].lexeme != ""
      ensures var from := if i == 0 then 0 else tokens[i - 1].End();
              from <= tokens[i].offset && GapBefore(source, from, tokens[i])
    {
      CoversEachToken(source, 0, tokens, i);
    }
    StepsIncrease(tokens);
  }

  lemma {:induction false} StepsIncrease(tokens: seq<Token>)
    requires forall i | 0 < i < |tokens| :: tokens[i - 1].offset < tokens[i].offset
    ensures forall i, j | 0 <= i < j < |tokens| :: tokens[i].offset < tokens[j].offset
  {
    if tokens != [] {
      var init := tokens[..|tokens| - 1];
      StepsIncrease(init);
      forall i, j | 0 <= i < j < |tokens| ensures tokens[i].offset < tokens[j].offset {
        if j == |tokens| - 1 && i < j - 1 {
          assert init[i].offset < init[j - 1].offset;
        } else if j < |tokens| - 1 {
          assert init[i].offset < init[j].offset;
        }
      }
    }
  }

  /** LEX COVERS A BARE TEXT: an answer without a wrapper covers all of the text but the white space around
      it. */
  lemma LexCoversBareText(u: Unicode, text: string)
    requires Lex(u, text).Ok? && Lex(u, text).value.1 == FormBare
    ensures Covers(TrimSpace(text), 0, Lex(u, text).value.0)
  {
    hide Scan, TrimSpace, Covers, LexWrapped;
    var source := TrimSpace(text);
    W.FormsAreKept(u, source);
    assert source[0..] == source;
    ScanCovers(u, source, 0);
  }
}
