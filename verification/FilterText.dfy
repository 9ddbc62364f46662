/** Filters as text: spelling tokens with any white space between them, and reading them back. */
module FilterText {
  import opened Wrappers
  import opened GoStrings
  import opened Filter
  import opened FilterGrammar
  import opened FilterPrinting

  // --- Spelling ---

  function DoubleQuotes(text: string): string {
    if text == "" then "" else (if text[0] == '\'' then "''" else [text[0]]) + DoubleQuotes(text[1..])
  }

  function Spell(t: Token): string {
    match t
    case EOF => ""
    case Identifier(text) => text
    case Quoted(text) => "'" + DoubleQuotes(text) + "'"
    case Numeral(text) => text
    case LeftParen => "("
    case RightParen => ")"
    case Comma => ","
    case Colon => ":"
  }

  predicate WordText(text: string) {
    text != "" && text[0] != '\'' && forall k | 0 <= k < |text| :: !Delimiter(text[k])
  }

  /** A token that has a spelling: any string, and words that are numbers only as numerals. */
  predicate Spellable(num: Numbers, t: Token) {
    match t
    case EOF => false
    case Identifier(text) => WordText(text) && num(text).None?
    case Numeral(text) => WordText(text) && num(text).Some?
    case _ => true
  }

  /** Neighbours that would read as one token without white space between them. */
  predicate NeedsGap(left: Token, right: Token) {
    || ((left.Identifier? || left.Numeral?) && (right.Identifier? || right.Numeral? || right.Quoted?))
    || (left.Quoted? && right.Quoted?)
  }

  predicate Blank(gap: string) {
    forall k | 0 <= k < |gap| :: SpaceByte(gap[k])
  }

  /** White space around and between the tokens, nonempty where they need it. */
  predicate Gaps(ts: seq<Token>, gaps: seq<string>) {
    && |gaps| == |ts| + 1
    && (forall k | 0 <= k < |gaps| :: Blank(gaps[k]))
    && (forall k | 0 < k < |ts| && NeedsGap(ts[k - 1], ts[k]) :: gaps[k] != "")
  }

  function Render(ts: seq<Token>, gaps: seq<string>): string
    requires |gaps| == |ts| + 1
  {
    if ts == [] then gaps[0] else gaps[0] + (Spell(ts[0]) + Render(ts[1..], gaps[1..]))
  }

  // --- Reading it back ---

  lemma {:induction false} QuotedRoundTrip(text: string, rest: string)
    requires rest == "" || rest[0] != '\''
    ensures QuotedText(DoubleQuotes(text) + "'" + rest) == Some((text, |DoubleQuotes(text)| + 1))
  {
    hide QuotedText;
    if text == "" {
      assert DoubleQuotes(text) + "'" + rest == "'" + rest;
      QuotedEnd(rest);
    } else {
      var c, tail := text[0], DoubleQuotes(text[1..]) + "'" + rest;
      QuotedRoundTrip(text[1..], rest);
      assert DoubleQuotes(text) + "'" + rest == (if c == '\'' then "''" else [c]) + tail;
      QuotedByte(c, tail);
      assert text == [c] + text[1..];
    }
  }

  lemma QuotedEnd(rest: string)
    requires rest == "" || rest[0] != '\''
    ensures QuotedText("'" + rest) == Some(("", 1))
  {
  }

  lemma QuotedByte(c: char, tail: string)
    requires QuotedText(tail).Some?
    ensures var quoted := if c == '\'' then "''" else [c];
            var (text, n) := QuotedText(tail).value;
            QuotedText(quoted + tail) == Some(([c] + text, |quoted| + n))
  {
    hide QuotedText;
    if c == '\'' {
      var s := "''" + tail;
      assert s[0] == '\'' && s[1] == '\'' && s[2..] == tail;
      QuotedQuote(s, QuotedText(tail).value.0, QuotedText(tail).value.1);
    } else {
      var s := [c] + tail;
      assert s[0] == c && s[1..] == tail;
      QuotedOther(s, QuotedText(tail).value.0, QuotedText(tail).value.1);
    }
  }

  lemma QuotedQuote(s: string, text: string, n: nat)
    requires |s| > 1 && s[0] == '\'' && s[1] == '\'' && QuotedText(s[2..]) == Some((text, n))
    ensures QuotedText(s) == Some(("'" + text, 2 + n))
  {
  }

  lemma QuotedOther(s: string, text: string, n: nat)
    requires s != "" && s[0] != '\'' && QuotedText(s[1..]) == Some((text, n))
    ensures QuotedText(s) == Some(([s[0]] + text, 1 + n))
  {
  }

  lemma {:induction false} WordRoundTrip(text: string, rest: string)
    requires forall k | 0 <= k < |text| :: !Delimiter(text[k])
    requires rest == "" || Delimiter(rest[0])
    ensures WordLength(text + rest) == |text|
  {
    if text == "" {
      assert text + rest == rest;
    } else {
      assert (text + rest)[1..] == text[1..] + rest;
      WordRoundTrip(text[1..], rest);
    }
  }

  /** A byte that cannot continue the token. */
  predicate Stops(t: Token, c: char) {
    (t.Identifier? || t.Numeral? ==> Delimiter(c)) && (t.Quoted? ==> c != '\'')
  }

  lemma TokenRoundTrip(num: Numbers, t: Token, rest: string)
    requires Spellable(num, t)
    requires rest == "" || Stops(t, rest[0])
    ensures Spell(t) != "" && !SpaceByte(Spell(t)[0])
    ensures Filter.NextToken(num, Spell(t) + rest) == Ok((t, |Spell(t)|))
  {
    match t
    case Quoted(text) => SpelledQuote(num, text, rest);
    case Identifier(text) => SpelledWord(num, text, rest);
    case Numeral(text) => SpelledWord(num, text, rest);
    case _ => SpelledMark(num, t, rest);
  }

  lemma SpelledQuote(num: Numbers, text: string, rest: string)
    requires rest == "" || rest[0] != '\''
    ensures var s := "'" + DoubleQuotes(text) + "'"; Filter.NextToken(num, s + rest) == Ok((Quoted(text), |s|))
  {
    hide QuotedText, DoubleQuotes, WordLength;
    var s := "'" + DoubleQuotes(text) + "'" + rest;
    QuotedRoundTrip(text, rest);
    assert s[1..] == DoubleQuotes(text) + "'" + rest;
  }

  lemma SpelledMark(num: Numbers, t: Token, rest: string)
    requires t in {LeftParen, RightParen, Comma, Colon}
    ensures Filter.NextToken(num, Spell(t) + rest) == Ok((t, 1)) && |Spell(t)| == 1 && !SpaceByte(Spell(t)[0])
  {
    hide QuotedText, WordLength;
    assert (Spell(t) + rest)[0] == Spell(t)[0];
  }

  lemma SpelledWord(num: Numbers, text: string, rest: string)
    requires WordText(text) && (rest == "" || Delimiter(rest[0]))
    ensures !SpaceByte(text[0]) && Filter.NextToken(num, text + rest) == Ok((Word(num, text), |text|))
  {
    hide WordLength, QuotedText;
    var s := text + rest;
    WordRoundTrip(text, rest);
    assert s[..|text|] == text && s[0] == text[0] && !Delimiter(text[0]);
  }

  lemma {:induction false} LexSkipsBlank(num: Numbers, gap: string, rest: string)
    requires Blank(gap)
    ensures LexFilter(num, gap + rest) == LexFilter(num, rest)
  {
    if gap == "" {
      assert gap + rest == rest;
    } else {
      assert (gap + rest)[1..] == gap[1..] + rest;
      LexSkipsBlank(num, gap[1..], rest);
    }
  }

  lemma NextTokenStops(num: Numbers, t: Token, next: Token)
    requires Spellable(num, next) && !NeedsGap(t, next)
    ensures Spell(next) != "" && Stops(t, Spell(next)[0])
  {
  }

  /** What follows a spelled token cannot be taken for part of it. */
  lemma NextByte(num: Numbers, t: Token, ts: seq<Token>, gaps: seq<string>)
    requires Gaps([t] + ts, gaps) && forall k | 0 <= k < |ts| :: Spellable(num, ts[k])
    ensures var rest := Render(ts, gaps[1..]); rest == "" || Stops(t, rest[0])
  {
    hide Spellable, Spell, NeedsGap;
    var rest := Render(ts, gaps[1..]);
    assert Blank(gaps[1]);
    if gaps[1] != "" {
      assert rest[0] == gaps[1][0] && SpaceByte(gaps[1][0]);
    } else if ts != [] {
      var all := [t] + ts;
      assert all[1] == ts[0] && all[0] == t && !NeedsGap(all[0], all[1]);
      NextTokenStops(num, t, ts[0]);
    }
  }

  /** LEXING INVERTS SPELLING, whatever white space separates the tokens. */
  lemma {:induction false} LexOfRender(num: Numbers, ts: seq<Token>, gaps: seq<string>)
    requires Gaps(ts, gaps) && forall k | 0 <= k < |ts| :: Spellable(num, ts[k])
    ensures LexFilter(num, Render(ts, gaps)) == Ok(ts + [EOF])
  {
    hide Spellable, Filter.NextToken;
    assert Blank(gaps[0]);
    if ts == [] {
      LexSkipsBlank(num, gaps[0], "");
      assert gaps[0] + "" == gaps[0] && ts + [EOF] == [EOF];
    } else {
      var rest := Render(ts[1..], gaps[1..]);
      LexSkipsBlank(num, gaps[0], Spell(ts[0]) + rest);
      assert ts == [ts[0]] + ts[1..];
      NextByte(num, ts[0], ts[1..], gaps);
      TokenRoundTrip(num, ts[0], rest);
      GapsOfTail(ts, gaps);
      LexOfRender(num, ts[1..], gaps[1..]);
      var s := Spell(ts[0]) + rest;
      assert s[|Spell(ts[0])|..] == rest && s[0] == Spell(ts[0])[0];
      assert [ts[0]] + (ts[1..] + [EOF]) == ts + [EOF];
    }
  }

  lemma GapsOfTail(ts: seq<Token>, gaps: seq<string>)
    requires ts != [] && Gaps(ts, gaps)
    ensures Gaps(ts[1..], gaps[1..])
  {
    var more, tail := ts[1..], gaps[1..];
    forall k | 0 < k < |more| && NeedsGap(more[k - 1], more[k]) ensures tail[k] != "" {
      assert more[k] == ts[k + 1] && more[k - 1] == ts[k];
    }
  }

  // --- A printed filter is no blank ---

  lemma {:induction false} RenderHasByte(ts: seq<Token>, gaps: seq<string>, k: nat) returns (i: nat)
    requires |gaps| == |ts| + 1 && k < |ts| && Spell(ts[k]) != ""
    ensures i < |Render(ts, gaps)| && Render(ts, gaps)[i] == Spell(ts[k])[0]
  {
    var rest := Render(ts[1..], gaps[1..]);
    if k == 0 {
      i := |gaps[0]|;
    } else {
      var j := RenderHasByte(ts[1..], gaps[1..], k - 1);
      i := |gaps[0]| + |Spell(ts[0])| + j;
      assert (gaps[0] + (Spell(ts[0]) + rest))[i] == rest[j];
    }
  }

  /** Some token of a spelling is spelled in ASCII: a parenthesis or a keyword. */
  ghost predicate SolidAt(ts: seq<Token>, k: int) {
    0 <= k < |ts| && Spell(ts[k]) != "" && Solid(Spell(ts[k])[0])
  }

  lemma AndHasSolidToken(ts: seq<Token>, p: Predicate)
    requires SpellsAnd(ts, p)
    ensures exists k :: SolidAt(ts, k)
  {
    hide SpellsPrimary;
    if SpellsPrimary(ts, p) {
      PrimaryHasSolidToken(ts, p);
    } else {
      var i :| 0 <= i < |ts| && AndAt(ts, i, p.left, p.right);
      KeywordIsSolid(ts[i], "and");
      assert SolidAt(ts, i);
    }
  }

  lemma SpellingHasSolidToken(ts: seq<Token>, p: Predicate)
    requires SpellsOr(ts, p)
    ensures exists k :: SolidAt(ts, k)
  {
    hide SpellsAnd;
    if SpellsAnd(ts, p) {
      AndHasSolidToken(ts, p);
    } else {
      var i :| 0 <= i < |ts| && OrAt(ts, i, p.left, p.right);
      KeywordIsSolid(ts[i], "or");
      assert SolidAt(ts, i);
    }
  }

  lemma KeywordIsSolid(t: Token, word: string)
    requires Keyword(t, word) && word in ["and", "or"]
    ensures Spell(t) != "" && Solid(Spell(t)[0])
  {
    assert ToLower(t.text)[0] == ToLower(word)[0] == word[0];
  }

  lemma PrimaryHasSolidToken(ts: seq<Token>, p: Predicate)
    requires SpellsPrimary(ts, p)
    ensures exists k :: SolidAt(ts, k)
  {
    hide SpellsOr;
    if SpellsComparison(ts, p) {
      OperatorIsSolid(ts[1].text);
      assert SolidAt(ts, 1);
    } else if ts[0] == LeftParen {
      assert SolidAt(ts, 0);
    } else {
      assert SolidAt(ts, 1);
    }
  }

  lemma OperatorIsSolid(text: string)
    requires OperatorOf(ToLower(text)).Some?
    ensures text != "" && Solid(text[0])
  {
    assert ToLower(text) in ["eq", "ne", "gt", "ge", "lt", "le"];
    assert ToLower(text)[0] in "engl";
  }

  // --- What the lexer accepts is a spelling ---

  lemma {:induction false} QuotedIsSpelled(s: string)
    requires QuotedText(s).Some?
    ensures var (text, n) := QuotedText(s).value;
            n <= |s| && s[..n] == DoubleQuotes(text) + "'" && (n == |s| || s[n] != '\'')
  {
    if s[0] != '\'' {
      QuotedIsSpelled(s[1..]);
      var (text, n) := QuotedText(s[1..]).value;
      assert s[..1 + n] == [s[0]] + s[1..][..n];
      assert ([s[0]] + text)[1..] == text;
    } else if |s| > 1 && s[1] == '\'' {
      QuotedIsSpelled(s[2..]);
      var (text, n) := QuotedText(s[2..]).value;
      assert s[..2 + n] == "''" + s[2..][..n];
      assert ("'" + text)[1..] == text;
    }
  }

  /** A token's spelling is what was read, and what follows is no more of it. */
  lemma NextIsSpelled(num: Numbers, s: string)
    requires s != "" && !SpaceByte(s[0]) && Filter.NextToken(num, s).Ok?
    ensures var (t, n) := Filter.NextToken(num, s).value;
            && Spellable(num, t) && s[..n] == Spell(t) && (n == |s| || Stops(t, s[n]))
  {
    hide QuotedText, DoubleQuotes, WordLength;
    if s[0] == '\'' {
      QuotedIsSpelled(s[1..]);
      var (text, n) := QuotedText(s[1..]).value;
      assert s[..1 + n] == "'" + s[1..][..n];
    } else if s[0] !in "(),:" {
      var n := WordLength(s);
      assert Delimiter(s[0]) <==> SpaceByte(s[0]) || s[0] in "(),:";
      assert n > 0;
    }
  }

  /** WHAT THE LEXER ACCEPTS IS A SPELLING: any text it accepts is its tokens, spelled with some white
      space, nonempty where two would otherwise be one. */
  lemma {:induction false} LexedIsRendered(num: Numbers, s: string) returns (ts: seq<Token>, gaps: seq<string>)
    requires LexFilter(num, s).Ok?
    ensures LexFilter(num, s).value == ts + [EOF] && Gaps(ts, gaps) && s == Render(ts, gaps)
    ensures forall k | 0 <= k < |ts| :: Spellable(num, ts[k])
    decreases |s|
  {
    hide Spellable, Filter.NextToken, Spell, NeedsGap, Stops;
    if s == "" {
      ts, gaps := [], [""];
    } else if SpaceByte(s[0]) {
      var more, later := LexedIsRendered(num, s[1..]);
      ts, gaps := more, [[s[0]] + later[0]] + later[1..];
      SpaceBefore(s[0], ts, later);
      assert s == [s[0]] + s[1..];
    } else {
      var (t, n) := Filter.NextToken(num, s).value;
      NextIsSpelled(num, s);
      var more, later := LexedIsRendered(num, s[n..]);
      ts, gaps := [t] + more, [""] + later;
      assert ts + [EOF] == [t] + (more + [EOF]);
      assert ts[1..] == more && gaps[1..] == later;
      assert s == s[..n] + s[n..];
      assert "" + (Spell(t) + s[n..]) == Spell(t) + s[n..];
      GapWhereNeeded(num, t, more, later, s[n..]);
    }
  }

  lemma SpaceBefore(c: char, ts: seq<Token>, gaps: seq<string>)
    requires Gaps(ts, gaps) && SpaceByte(c)
    ensures var wider := [[c] + gaps[0]] + gaps[1..];
            Gaps(ts, wider) && Render(ts, wider) == [c] + Render(ts, gaps)
  {
    var wider := [[c] + gaps[0]] + gaps[1..];
    assert wider[1..] == gaps[1..];
    assert Blank(gaps[0]);
    if ts != [] {
      var rest := Spell(ts[0]) + Render(ts[1..], gaps[1..]);
      assert [c] + gaps[0] + rest == [c] + (gaps[0] + rest);
    }
  }

  lemma RenderStarts(ts: seq<Token>, gaps: seq<string>)
    requires |gaps| == |ts| + 1 && ts != []
    ensures gaps[0] == "" && Spell(ts[0]) != "" ==> Render(ts, gaps) != "" && Render(ts, gaps)[0] == Spell(ts[0])[0]
  {
  }

  lemma GapWhereNeeded(num: Numbers, t: Token, ts: seq<Token>, gaps: seq<string>, rest: string)
    requires Gaps(ts, gaps) && rest == Render(ts, gaps) && (rest == "" || Stops(t, rest[0]))
    requires forall k | 0 <= k < |ts| :: Spellable(num, ts[k])
    ensures Gaps([t] + ts, [""] + gaps)
  {
    hide Spellable, Stops, NeedsGap, Spell;
    var all, wider := [t] + ts, [""] + gaps;
    forall k | 0 < k < |all| && NeedsGap(all[k - 1], all[k]) ensures wider[k] != "" {
      if k > 1 {
        assert all[k] == ts[k - 1] && all[k - 1] == ts[k - 2] && wider[k] == gaps[k - 1];
      } else {
        assert all[0] == t && all[1] == ts[0] && wider[1] == gaps[0];
        NoGapStops(num, t, ts[0]);
        RenderStarts(ts, gaps);
      }
    }
  }

  lemma NoGapStops(num: Numbers, t: Token, next: Token)
    requires NeedsGap(t, next) && Spellable(num, next)
    ensures Spell(next) != "" && !Stops(t, Spell(next)[0])
  {
  }

  // --- What is accepted ---

  /** A text that spells the filter: its tokens do, with white space between them. */
  ghost predicate TextSpells(num: Numbers, source: string, p: Predicate, ts: seq<Token>, gaps: seq<string>) {
    && (forall k | 0 <= k < |ts| :: Spellable(num, ts[k]))
    && Gaps(ts, gaps) && source == Render(ts, gaps) && SpellsOr(ts, p)
  }

  /** EXACTLY THE SPELLINGS OF ADMITTED FILTERS ARE ACCEPTED, each as the filter it spells: all of the text
      is used, every parenthesis closed and every argument there. */
  lemma AcceptedExactly(num: Numbers, source: string, contract: Contract, p: Predicate)
    ensures FilterOf(num, source, contract) == Ok(Some(p)) <==>
              Admits(contract, p) && exists ts, gaps :: TextSpells(num, source, p, ts, gaps)
  {
    hide ParseOr, LexFilter, TrimSpace, SpellsOr, Spellable, Gaps, Render, Admits, Keyword;
    if FilterOf(num, source, contract) == Ok(Some(p)) {
      var ts, gaps := LexedIsRendered(num, source);
      ReadToTheEnd(ts, contract, p);
      assert TextSpells(num, source, p, ts, gaps);
    }
    if Admits(contract, p) && exists ts, gaps :: TextSpells(num, source, p, ts, gaps) {
      var ts, gaps :| TextSpells(num, source, p, ts, gaps);
      SpelledIsAccepted(num, ts, gaps, p, contract);
    }
  }

  lemma ReadToTheEnd(ts: seq<Token>, contract: Contract, p: Predicate)
    requires Terminated(ts + [EOF])
    requires ParseOr(ts + [EOF], contract).Ok? && ParseOr(ts + [EOF], contract).value.0 == p
    requires ParseOr(ts + [EOF], contract).value.1[0] == EOF
    ensures SpellsOr(ts, p) && Admits(contract, p)
  {
    hide ParseOr, SpellsOr, Admits;
    var all := ts + [EOF];
    var (_, rest) := ParseOr(all, contract).value;
    ReadIsSpelling(all, contract);
    assert rest[0] == all[|all| - |rest|];
    assert |rest| == 1 && all[..|all| - 1] == ts;
    EndFollows();
    SpellingIsRead(ts, p, [EOF], contract);
  }

  lemma EndFollows()
    ensures Follows([EOF], "and") && Follows([EOF], "or")
  {
  }

  /** A spelling of a filter the contract does not admit is refused. */
  lemma SpelledIsAccepted(num: Numbers, ts: seq<Token>, gaps: seq<string>, p: Predicate, contract: Contract)
    requires Gaps(ts, gaps) && SpellsOr(ts, p) && forall k | 0 <= k < |ts| :: Spellable(num, ts[k])
    ensures var r := FilterOf(num, Render(ts, gaps), contract);
            if Admits(contract, p) then r == Ok(Some(p)) else r.Err?
  {
    hide ParseOr, LexFilter, Admits, TrimSpace, Spellable, SpellsOr, Gaps, Render;
    SpellingHasSolidToken(ts, p);
    var k :| SolidAt(ts, k);
    GapsCount(ts, gaps);
    var i := RenderHasByte(ts, gaps, k);
    TrimKeepsSolid(Render(ts, gaps), i);
    LexOfRender(num, ts, gaps);
    EndFollows();
    SpellingIsRead(ts, p, [EOF], contract);
  }

  lemma GapsCount(ts: seq<Token>, gaps: seq<string>)
    requires Gaps(ts, gaps)
    ensures |gaps| == |ts| + 1
  {
  }

  /** THE PARSER INVERTS THE PRINTER, and a contract admits exactly what it describes: any filter,
      spelled with any white space, is read back as itself if the contract admits it, and refused
      otherwise. */
  lemma FilterRoundTrip(num: Numbers, p: Predicate, gaps: seq<string>, contract: Contract)
    requires WellFormed(p)
    requires forall k | 0 <= k < |PrintOr(p)| :: Spellable(num, PrintOr(p)[k])
    requires Gaps(PrintOr(p), gaps)
    ensures var r := FilterOf(num, Render(PrintOr(p), gaps), contract);
            if Admits(contract, p) then r == Ok(Some(p)) else r.Err?
  {
    hide FilterOf, SpellsOr, PrintOr, Admits, Spellable, Gaps, Render;
    PrintSpells(p);
    SpelledIsAccepted(num, PrintOr(p), gaps, p, contract);
  }

  /** No filter at all is the meaning of a blank text, and of nothing else. */
  lemma BlankIsNoFilter(num: Numbers, source: string, contract: Contract)
    ensures FilterOf(num, source, contract) == Ok(None) <==> TrimSpace(source) == ""
  {
  }
}
