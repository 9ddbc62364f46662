/** Interpolated strings: printing a list of parts and splitting what was printed. */
module Interpolation {
  import opened Wrappers
  import opened GoStrings
  import opened Lexer
  import opened Matching
  import W = Wrapping

  // --- Printing, as C# writes an interpolated string ---

  function PrintByte(c: char): string {
    match c
    case '{' => "{{"
    case '}' => "}}"
    case '"' => "\\\""
    case '\\' => "\\\\"
    case '\n' => "\\n"
    case '\r' => "\\r"
    case _ => [c]
  }

  function PrintText(text: string): string {
    if text == "" then "" else PrintByte(text[0]) + PrintText(text[1..])
  }

  function PrintPart(part: Part): string {
    match part
    case Text(text) => PrintText(text)
    case Hole(source) => "{" + source + "}"
  }

  function Print(parts: seq<Part>): string {
    if parts == [] then "" else PrintPart(parts[0]) + Print(parts[1..])
  }

  /** The parts with neighbouring literals joined to each other and to `literal`, and empty ones gone. */
  function Merge(parts: seq<Part>, literal: string): seq<Part> {
    if parts == [] then Flush(literal)
    else
      match parts[0]
      case Text(text) => Merge(parts[1..], literal + text)
      case Hole(_) => Flush(literal) + [parts[0]] + Merge(parts[1..], "")
  }

  /** Code that can stand in a hole: it is not read as a doubled brace, and the brace after it is the
      one that closes it. */
  predicate HoleText(source: string) {
    && (source == "" || source[0] != '{')
    && Closer(source + "}", '{', '}', 1) == Ok(|source|)
  }

  predicate Printable(parts: seq<Part>) {
    forall k | 0 <= k < |parts| && parts[k].Hole? :: HoleText(parts[k].source)
  }

  /** Code whose brace tokens balance, that starts with none and does not end inside a line comment,
      can stand in a hole. */
  lemma BalancedCodeIsHoleText(u: Unicode, source: string)
    requires Scan(u, source, 0).Ok? && (source == "" || source[0] != '{')
    requires W.Balanced(Scan(u, source, 0).value, FormBlock) && !W.EndsInLineComment(u, source)
    ensures HoleText(source)
  {
    hide Scan, Closer, W.TokenCloser;
    W.CloserMatchesTokens(u, source, 0, FormBlock, 1);
    var tokens := Scan(u, source, 0).value;
    W.TokenCloserIsFirstZero(tokens, FormBlock, 1);
    assert forall k | 0 <= k <= |tokens| :: W.Net(tokens[..k], FormBlock) >= 0;
  }

  // --- Splitting what was printed ---

  lemma StepOverByte(c: char, tail: string)
    ensures var s := PrintByte(c) + tail;
            s[0] != '"' && Step(s) == Ok((Text([c]), |PrintByte(c)|)) && s[|PrintByte(c)|..] == tail
  {
    var s := PrintByte(c) + tail;
    if c == '"' || c == '\\' || c == '\n' || c == '\r' {
      assert s[1..][0] == PrintByte(c)[1];
    }
  }

  lemma {:induction false} SplitOverText(text: string, tail: string, literal: string)
    ensures Split(PrintText(text) + tail, literal) == Further([], |PrintText(text)|, Split(tail, literal + text))
  {
    hide Step, Split, PrintByte;
    if text == "" {
      assert PrintText(text) + tail == tail && literal + text == literal;
      FurtherAssociates([], 0, [], 0, Split(tail, literal));
    } else {
      var c, more := text[0], PrintText(text[1..]);
      SplitOverByte(c, more + tail, literal);
      assert PrintText(text) + tail == PrintByte(c) + (more + tail);
      SplitOverText(text[1..], tail, literal + [c]);
      assert literal + [c] + text[1..] == literal + text;
      FurtherAssociates([], |PrintByte(c)|, [], |more|, Split(tail, literal + text));
    }
  }

  lemma SplitOverByte(c: char, tail: string, literal: string)
    ensures Split(PrintByte(c) + tail, literal) == Further([], |PrintByte(c)|, Split(tail, literal + [c]))
  {
    hide Step, Split, PrintByte;
    StepOverByte(c, tail);
    SplitStep(PrintByte(c) + tail, literal);
  }

  lemma StepOverHole(source: string, tail: string)
    requires HoleText(source)
    ensures var s := "{" + source + "}" + tail;
            Step(s) == Ok((Hole(source), |source| + 2)) && s[|source| + 2..] == tail
  {
    hide Closer;
    var s := "{" + source + "}" + tail;
    assert s[1..] == source + "}" + tail;
    CloserExtends(source + "}", tail, '{', '}', 1);
    assert s[1..1 + |source|] == source;
  }

  /** INTERPOLATION ROUND TRIP. Splitting printed parts and a closing quote gives back the parts, with
      neighbouring literals joined, and the index of that quote, whatever follows it. */
  lemma {:induction false} SplitOfPrint(parts: seq<Part>, literal: string, rest: string)
    requires Printable(parts)
    ensures Split(Print(parts) + "\"" + rest, literal) == Ok((Merge(parts, literal), |Print(parts)|))
  {
    hide Step, Split, HoleText, PrintText, Print, Further, Flush;
    if parts == [] {
      assert Print(parts) + "\"" + rest == "\"" + rest by {
        PrintNone();
      }
      SplitStops("\"" + rest, literal);
    } else {
      var part, more := parts[0], parts[1..];
      var tail := Print(more) + "\"" + rest;
      var s := PrintPart(part) + tail;
      PrintSome(parts, rest);
      match part {
        case Text(text) =>
          SplitOverText(text, tail, literal);
          SplitOfPrint(more, literal + text, rest);
          FurtherOk([], |PrintText(text)|, Merge(more, literal + text), |Print(more)|);
          assert [] + Merge(more, literal + text) == Merge(more, literal + text);
        case Hole(source) =>
          StepOverHole(source, tail);
          SplitStep(s, literal);
          SplitOfPrint(more, "", rest);
          FurtherOk(Flush(literal) + [part], |source| + 2, Merge(more, ""), |Print(more)|);
      }
    }
  }

  /** What stops the splitter stops it behind any printed parts too. */
  lemma {:induction false} SplitStopsAfterPrint(parts: seq<Part>, tail: string, literal: string, e: LexError)
    requires Printable(parts) && forall before :: Split(tail, before) == Err(e)
    ensures Split(Print(parts) + tail, literal) == Err(e)
  {
    hide Step, Split, HoleText, PrintText, Flush;
    if parts == [] {
      assert Print(parts) + tail == tail;
    } else {
      var more := Print(parts[1..]) + tail;
      assert Print(parts) + tail == PrintPart(parts[0]) + more;
      match parts[0] {
        case Text(text) =>
          SplitOverText(text, more, literal);
          SplitStopsAfterPrint(parts[1..], tail, literal + text, e);
        case Hole(source) =>
          StepOverHole(source, more);
          SplitStep(PrintPart(parts[0]) + more, literal);
          SplitStopsAfterPrint(parts[1..], tail, "", e);
      }
    }
  }

  lemma PrintNone()
    ensures |Print([])| == 0
  {
  }

  lemma PrintSome(parts: seq<Part>, rest: string)
    requires parts != []
    ensures var tail := Print(parts[1..]) + "\"" + rest;
            Print(parts) + "\"" + rest == PrintPart(parts[0]) + tail
    ensures |Print(parts)| == |PrintPart(parts[0])| + |Print(parts[1..])|
  {
    hide PrintPart;
  }

  lemma FurtherOk(parts: seq<Part>, n: nat, more: seq<Part>, q: nat)
    ensures Further(parts, n, Ok((more, q))) == Ok((parts + more, n + q))
  {
  }

  /** The tokenizer's way into an interpolated string. */
  lemma InterpolatedTokens(u: Unicode, s: string)
    requires |s| > 1 && s[0] == '$' && s[1] == '"'
    ensures NextToken(u, s) == InterpolatedToken(s)
  {
    hide InterpolatedToken;
  }

  /** So the tokenizer reads a printed interpolated string as one token, which is exactly its text. */
  lemma TokenOfPrint(u: Unicode, parts: seq<Part>, rest: string)
    requires Printable(parts)
    ensures var text := "$\"" + Print(parts) + "\"";
            NextToken(u, text + rest) == Ok(Token(TokenInterpolated, text, NoLiteral, 0))
  {
    hide Split, HoleText, Printable, NextToken, Print, Merge, DecodeRune;
    var text := "$\"" + Print(parts) + "\"";
    var s := text + rest;
    InterpolatedTokens(u, s);
    SplitOfPrint(parts, "", rest);
    assert s[2..] == Print(parts) + "\"" + rest;
    assert s[..|text|] == text;
  }

  /** Literal text once collected shows up as the first part. */
  lemma {:induction false} LiteralComesFirst(s: string, literal: string)
    requires literal != "" && Split(s, literal).Ok?
    ensures var parts := Split(s, literal).value.0; parts != [] && parts[0].Text?
    decreases |s|
  {
    hide Step;
    if s[0] != '"' {
      var (part, n) := Step(s).value;
      if part.Text? {
        LiteralComesFirst(s[n..], literal + part.text);
      }
    }
  }

  /** The condition on holes is exact: a hole survives printing and splitting just when it holds. */
  lemma HoleTextIsExact(source: string)
    ensures Split(Print([Hole(source)]) + "\"", "") == Ok(([Hole(source)], |source| + 2)) <==> HoleText(source)
  {
    hide Split, Closer;
    var parts := [Hole(source)];
    assert parts[1..] == [];
    var s := Print(parts) + "\"";
    assert Print(parts) == "{" + source + "}" && s == Print(parts) + "\"" + "";
    assert Merge(parts, "") == parts;
    if HoleText(source) {
      SplitOfPrint(parts, "", "");
    } else if Split(s, "") == Ok((parts, |source| + 2)) {
      assert s[1..] == source + "}" + "\"";
      SplitStops(s, "");
      SplitStep(s, "");
      if source != "" && source[0] == '{' {
        assert s[1] == '{';
        LiteralComesFirst(s[2..], "" + "{");
      } else {
        assert s[1] != '{';
        var c := Closer(s[1..], '{', '}', 1).value;
        assert s[1..1 + c] == source;
        CloserLocal(source + "}", "\"", '{', '}', 1);
      }
    }
  }
}
