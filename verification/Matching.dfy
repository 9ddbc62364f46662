/** The byte-level bracket matcher and the interpolation splitter, which call each other: what either
    finds, it finds in every longer source, and without anything after the place it found. */
module Matching {
  import opened Wrappers
  import opened GoStrings
  import opened Lexer

  // --- Success on a prefix is final ---

  lemma DropAppend(s: string, x: string, n: nat)
    requires n <= |s|
    ensures (s + x)[n..] == s[n..] + x
  {
  }

  /** A string that ends in `s` ends there in every longer source, unless it is verbatim, ends
      with `s`, and the next byte doubles its quote. */
  lemma {:induction false} StringTailExtends(s: string, x: string, quote: char, verbatim: bool)
    requires StringTail(s, quote, verbatim).Ok?
    requires verbatim ==> StringTail(s, quote, verbatim).value < |s| || x == "" || x[0] != '"'
    ensures StringTail(s + x, quote, verbatim) == StringTail(s, quote, verbatim)
    decreases |s|
  {
    if s[0] == quote && !(verbatim && |s| > 1 && s[1] == '"') {
    } else {
      var n := if s[0] == quote || (!verbatim && s[0] == '\\') then 2 else 1;
      DropAppend(s, x, n);
      StringTailExtends(s[n..], x, quote, verbatim);
    }
  }

  lemma {:induction false} LineTailExtends(s: string, x: string)
    requires LineTail(s) < |s|
    ensures LineTail(s + x) == LineTail(s)
    decreases |s|
  {
    if s[0] != '\n' {
      DropAppend(s, x, 1);
      LineTailExtends(s[1..], x);
    }
  }

  lemma {:induction false} BlockTailExtends(s: string, x: string)
    requires BlockTail(s).Ok?
    ensures BlockTail(s + x) == BlockTail(s)
    decreases |s|
  {
    if !(s[0] == '*' && s[1] == '/') {
      DropAppend(s, x, 1);
      BlockTailExtends(s[1..], x);
    }
  }

  lemma CommentExtends(s: string, x: string)
    requires |s| >= 2 && CommentLength(s).Ok? && CommentLength(s).value < |s|
    ensures CommentLength(s + x) == CommentLength(s)
  {
    DropAppend(s, x, 2);
    if s[1] == '/' {
      LineTailExtends(s[2..], x);
    } else if s[1] == '*' {
      BlockTailExtends(s[2..], x);
    }
  }

  lemma EscapeExtends(s: string, x: string)
    requires DecodeEscape(s).Ok?
    ensures DecodeEscape(s + x) == DecodeEscape(s)
  {
  }

  lemma {:induction false} SkipExtends(s: string, x: string)
    requires s != "" && Skip(s).Ok? && Skip(s).value < |s|
    ensures Skip(s + x) == Skip(s)
    decreases |s|, 0
  {
    hide StringTail, CommentLength;
    DropAppend(s, x, 1);
    if s[0] == '"' || s[0] == '\'' {
      StringTailExtends(s[1..], x, s[0], false);
    } else if s[0] == '$' && PeekAt(s, 1) == '"' {
      DropAppend(s, x, 2);
      SplitExtends(s[2..], x, "");
    } else if s[0] == '@' && PeekAt(s, 1) == '"' {
      DropAppend(s, x, 2);
      StringTailExtends(s[2..], x, '"', true);
    } else if s[0] == '/' {
      CommentExtends(s, x);
    }
  }

  /** The matcher's answer on a prefix is its answer on every longer source. */
  lemma {:induction false} CloserExtends(s: string, x: string, left: char, right: char, depth: int)
    requires left != right && Closer(s, left, right, depth).Ok?
    ensures Closer(s + x, left, right, depth) == Closer(s, left, right, depth)
    decreases |s|, 1
  {
    hide Skip, Closer;
    if s == "" {
      CloserEnd(left, right, depth);
    } else if s[0] == left {
      CloserLeft(s, left, right, depth);
      CloserLeft(s + x, left, right, depth);
      DropAppend(s, x, 1);
      CloserExtends(s[1..], x, left, right, depth + 1);
    } else if s[0] == right {
      CloserRight(s, left, right, depth);
      CloserRight(s + x, left, right, depth);
      DropAppend(s, x, 1);
      if depth != 1 {
        CloserExtends(s[1..], x, left, right, depth - 1);
      }
    } else {
      CloserSkip(s, left, right, depth);
      CloserSkip(s + x, left, right, depth);
      var n := Skip(s).value;
      if n == |s| {
        CloserEnd(left, right, depth);
      }
      DropAppend(s, x, n);
      SkipExtends(s, x);
      CloserExtends(s[n..], x, left, right, depth);
    }
  }

  lemma {:induction false} StepExtends(s: string, x: string)
    requires s != "" && s[0] != '"' && Step(s).Ok?
    ensures Step(s + x) == Step(s)
    decreases |s|, 2
  {
    hide Closer, DecodeEscape;
    if s[0] == '{' && PeekAt(s, 1) != '{' {
      if |s| == 1 {
        CloserEnd('{', '}', 1);
      }
      DropAppend(s, x, 1);
      CloserExtends(s[1..], x, '{', '}', 1);
      var c := Closer(s[1..], '{', '}', 1).value;
      assert (s + x)[1..1 + c] == s[1..1 + c];
    } else if s[0] == '\\' {
      DropAppend(s, x, 1);
      EscapeExtends(s[1..], x);
    }
  }

  /** So is the splitter's. */
  lemma {:induction false} SplitExtends(s: string, x: string, literal: string)
    requires Split(s, literal).Ok?
    ensures Split(s + x, literal) == Split(s, literal)
    decreases |s|, 3
  {
    hide Step;
    if s[0] != '"' {
      StepExtends(s, x);
      var (part, n) := Step(s).value;
      DropAppend(s, x, n);
      SplitExtends(s[n..], x, if part.Text? then literal + part.text else "");
    }
  }

  // --- And it depends on nothing further on ---

  lemma {:induction false} StringTailLocal(s: string, x: string, quote: char, verbatim: bool)
    requires StringTail(s + x, quote, verbatim).Ok? && StringTail(s + x, quote, verbatim).value <= |s|
    ensures StringTail(s, quote, verbatim) == StringTail(s + x, quote, verbatim)
    decreases |s|
  {
    var whole := s + x;
    assert whole[0] == s[0];
    if s[0] == quote && !(verbatim && |whole| > 1 && whole[1] == '"') {
    } else {
      var n := if s[0] == quote || (!verbatim && s[0] == '\\') then 2 else 1;
      assert n <= |s|;
      DropAppend(s, x, n);
      StringTailLocal(s[n..], x, quote, verbatim);
    }
  }

  lemma {:induction false} LineTailLocal(s: string, x: string)
    requires LineTail(s + x) <= |s|
    ensures LineTail(s) == LineTail(s + x)
    decreases |s|
  {
    if s != "" && s[0] != '\n' {
      DropAppend(s, x, 1);
      LineTailLocal(s[1..], x);
    }
  }

  lemma {:induction false} BlockTailLocal(s: string, x: string)
    requires BlockTail(s + x).Ok? && BlockTail(s + x).value <= |s|
    ensures BlockTail(s) == BlockTail(s + x)
    decreases |s|
  {
    if !(s[0] == '*' && s[1] == '/') {
      DropAppend(s, x, 1);
      BlockTailLocal(s[1..], x);
    }
  }

  lemma CommentLocal(s: string, x: string)
    requires |s| >= 2 && CommentLength(s + x).Ok? && CommentLength(s + x).value <= |s|
    ensures CommentLength(s) == CommentLength(s + x)
  {
    DropAppend(s, x, 2);
    if s[1] == '/' {
      LineTailLocal(s[2..], x);
    } else if s[1] == '*' {
      BlockTailLocal(s[2..], x);
    }
  }

  lemma {:induction false} SkipLocal(s: string, x: string)
    requires s != "" && Skip(s + x).Ok? && Skip(s + x).value <= |s|
    ensures Skip(s) == Skip(s + x)
    decreases |s|, 0
  {
    hide StringTail, LineTail, BlockTail;
    var c := s[0];
    assert (s + x)[0] == c;
    DropAppend(s, x, 1);
    if c == '"' || c == '\'' {
      StringTailLocal(s[1..], x, c, false);
    } else if |s| == 1 {
    } else if c == '$' && s[1] == '"' {
      DropAppend(s, x, 2);
      SplitLocal(s[2..], x, "");
    } else if c == '@' && s[1] == '"' {
      DropAppend(s, x, 2);
      StringTailLocal(s[2..], x, '"', true);
    } else if c == '/' {
      CommentLocal(s, x);
    }
  }

  /** The matcher's answer depends only on the bytes up to the closer it finds. */
  lemma {:induction false} CloserLocal(s: string, x: string, left: char, right: char, depth: int)
    requires left != right
    requires Closer(s + x, left, right, depth).Ok? && Closer(s + x, left, right, depth).value < |s|
    ensures Closer(s, left, right, depth) == Closer(s + x, left, right, depth)
    decreases |s|, 1
  {
    hide Skip, Closer;
    if s[0] == left {
      CloserLeft(s, left, right, depth);
      CloserLeft(s + x, left, right, depth);
      DropAppend(s, x, 1);
      CloserLocal(s[1..], x, left, right, depth + 1);
    } else if s[0] == right {
      CloserRight(s, left, right, depth);
      CloserRight(s + x, left, right, depth);
      DropAppend(s, x, 1);
      if depth != 1 {
        CloserLocal(s[1..], x, left, right, depth - 1);
      }
    } else {
      CloserSkip(s, left, right, depth);
      CloserSkip(s + x, left, right, depth);
      var n := Skip(s + x).value;
      SkipLocal(s, x);
      DropAppend(s, x, n);
      CloserLocal(s[n..], x, left, right, depth);
    }
  }

  lemma {:induction false} StepLocal(s: string, x: string)
    requires s != "" && s[0] != '"' && Step(s + x).Ok? && Step(s + x).value.1 <= |s|
    ensures Step(s) == Step(s + x)
    decreases |s|, 2
  {
    hide Closer, DecodeEscape;
    if |s| >= 2 && s[0] == '{' && s[1] != '{' {
      DropAppend(s, x, 1);
      CloserLocal(s[1..], x, '{', '}', 1);
      var c := Closer(s[1..], '{', '}', 1).value;
      assert (s + x)[1..1 + c] == s[1..1 + c];
    } else if |s| >= 2 && s[0] == '\\' {
      DropAppend(s, x, 1);
      EscapeLocal(s[1..], x);
    }
  }

  lemma EscapeLocal(s: string, x: string)
    requires DecodeEscape(s + x).Ok? && DecodeEscape(s + x).value.1 <= |s|
    ensures DecodeEscape(s) == DecodeEscape(s + x)
  {
  }

  lemma {:induction false} SplitLocal(s: string, x: string, literal: string)
    requires Split(s + x, literal).Ok? && Split(s + x, literal).value.1 < |s|
    ensures Split(s, literal) == Split(s + x, literal)
    decreases |s|, 3
  {
    hide Step;
    assert (s + x)[0] == s[0];
    if s[0] != '"' {
      var (part, n) := Step(s + x).value;
      StepLocal(s, x);
      DropAppend(s, x, n);
      SplitLocal(s[n..], x, if part.Text? then literal + part.text else "");
    }
  }

  /** MATCHER AND SPLITTER ARE STABLE. Appending to a source changes neither a success nor the place
      it was found, and nothing after that place was needed to find it. */
  lemma MatcherIsStable(s: string, x: string, left: char, right: char, depth: int, n: nat)
    requires left != right && n < |s|
    ensures Closer(s, left, right, depth) == Ok(n) <==> Closer(s + x, left, right, depth) == Ok(n)
  {
    if Closer(s, left, right, depth) == Ok(n) {
      CloserExtends(s, x, left, right, depth);
    } else if Closer(s + x, left, right, depth) == Ok(n) {
      CloserLocal(s, x, left, right, depth);
    }
  }

  lemma SplitterIsStable(s: string, x: string, literal: string, parts: seq<Part>, q: nat)
    requires q < |s|
    ensures Split(s, literal) == Ok((parts, q)) <==> Split(s + x, literal) == Ok((parts, q))
  {
    if Split(s, literal) == Ok((parts, q)) {
      SplitExtends(s, x, literal);
    } else if Split(s + x, literal) == Ok((parts, q)) {
      SplitLocal(s, x, literal);
    }
  }
}
