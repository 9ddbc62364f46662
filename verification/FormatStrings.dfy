/** `formatString`, internal/expression/statics.go: substituting `{0}`, `{1}` and so on. */
module FormatStrings {
  import opened Wrappers
  import opened GoStrings

  datatype FormatError = UnclosedPlaceholder | NotAnIndex | NoArgument

  /** `strconv.Atoi` on a 64-bit machine. */
  function Atoi(s: string): Option<int> {
    match ParseInteger(s)
    case Some(n) => if -MAX_INT64 - 1 <= n <= MAX_INT64 then Some(n) else None
    case None => None
  }

  /** The index of the first closing brace, or the length when there is none. */
  function BraceIndex(s: string): (n: nat)
    ensures n <= |s|
    ensures n < |s| ==> s[n] == '}'
    ensures '}' !in s[..n]
  {
    if s == "" || s[0] == '}' then 0
    else
      var n := BraceIndex(s[1..]);
      assert s[..n + 1] == [s[0]] + s[1..][..n];
      1 + n
  }

  /** The text of the placeholder whose inside is `token`. */
  function Substitute(token: string, values: seq<string>): Result<string, FormatError> {
    match Atoi(token)
    case None => Err(NotAnIndex)
    case Some(index) => if 0 <= index < |values| then Ok(values[index]) else Err(NoArgument)
  }

  function After(text: string, r: Result<string, FormatError>): Result<string, FormatError> {
    match r
    case Ok(rest) => Ok(text + rest)
    case Err(e) => Err(e)
  }

  /** One step: what the next bytes of the format stand for, and their number. */
  function Piece(s: string, values: seq<string>): (r: Result<(string, nat), FormatError>)
    requires s != ""
    ensures r.Ok? ==> 1 <= r.value.1 <= |s|
  {
    if s[0] == '}' then Ok(("}", if |s| > 1 && s[1] == '}' then 2 else 1))
    else if s[0] != '{' then Ok(([s[0]], 1))
    else if |s| > 1 && s[1] == '{' then Ok(("{", 2))
    else
      var end := BraceIndex(s);
      if end == |s| then Err(UnclosedPlaceholder)
      else
        match Substitute(s[1..end], values)
        case Ok(text) => Ok((text, end + 1))
        case Err(e) => Err(e)
  }

  function Format(s: string, values: seq<string>): Result<string, FormatError> {
    if s == "" then Ok("")
    else
      match Piece(s, values)
      case Err(e) => Err(e)
      case Ok((text, n)) => After(text, Format(s[n..], values))
  }

  method IndexOfBrace(format: string, start: nat) returns (end: nat)
    requires start <= |format|
    ensures end == BraceIndex(format[start..])
  {
    end := 0;
    ghost var rest := format[start..];
    while start + end < |format| && format[start + end] != '}'
      invariant start + end <= |format| && rest == format[start + end..]
      invariant BraceIndex(format[start..]) == end + BraceIndex(rest)
      decreases |format| - end
    {
      end := end + 1;
      rest := rest[1..];
    }
  }

  /** `formatString`, once its arguments are known to be a format and texts. */
  method FormatString(format: string, values: seq<string>) returns (r: Result<string, FormatError>)
    ensures r == Format(format, values)
  {
    var out := "";
    var i := 0;
    ghost var rest := format;
    ghost var goal := Format(format, values);
    AfterTwice("", "", goal);
    while i < |format|
      invariant i <= |format| && rest == format[i..]
      invariant goal == After(out, Format(rest, values))
    {
      var step := PieceAt(format, i, values);
      if step.Err? {
        return Err(step.error);
      }
      var (text, n) := step.value;
      AfterTwice(out, text, Format(rest[n..], values));
      out := out + text;
      rest := rest[n..];
      i := i + n;
    }
    assert out + "" == out;
    return Ok(out);
  }

  /** The cases of the loop's body. */
  method PieceAt(format: string, i: nat, values: seq<string>) returns (r: Result<(string, nat), FormatError>)
    requires i < |format|
    ensures r == Piece(format[i..], values)
  {
    ghost var s := format[i..];
    if format[i] == '}' {
      if i + 1 < |format| && format[i + 1] == '}' {
        return Ok(("}", 2));
      }
      return Ok(("}", 1));
    }
    if format[i] != '{' {
      return Ok(([format[i]], 1));
    }
    if i + 1 < |format| && format[i + 1] == '{' {
      return Ok(("{", 2));
    }
    var end := IndexOfBrace(format, i);
    if i + end == |format| {
      return Err(UnclosedPlaceholder);
    }
    assert format[i + 1..i + end] == s[1..end];
    var index := Atoi(format[i + 1..i + end]);
    if index.None? {
      return Err(NotAnIndex);
    }
    if index.value < 0 || index.value >= |values| {
      return Err(NoArgument);
    }
    return Ok((values[index.value], end + 1));
  }

  lemma AfterTwice(text: string, more: string, r: Result<string, FormatError>)
    ensures After(text, After(more, r)) == After(text + more, r)
    ensures After("", r) == r
  {
    if r.Ok? {
      assert text + (more + r.value) == text + more + r.value;
      assert "" + r.value == r.value;
    }
  }

  // --- Templates ---

  datatype Part = Literal(text: string) | Placeholder(index: nat)

  function DoubleBrace(c: char): string {
    if c == '{' || c == '}' then [c, c] else [c]
  }

  function DoubleBraces(text: string): string {
    if text == "" then "" else DoubleBrace(text[0]) + DoubleBraces(text[1..])
  }

  function PrintPart(part: Part): string {
    match part
    case Literal(text) => DoubleBraces(text)
    case Placeholder(index) => "{" + Itoa(index) + "}"
  }

  function Print(parts: seq<Part>): string {
    if parts == [] then "" else PrintPart(parts[0]) + Print(parts[1..])
  }

  /** What the template means: its literals and the texts of its arguments, in order. */
  function Render(parts: seq<Part>, values: seq<string>): string
    requires forall k | 0 <= k < |parts| && parts[k].Placeholder? :: parts[k].index < |values|
  {
    if parts == [] then ""
    else (match parts[0] case Literal(text) => text case Placeholder(i) => values[i]) + Render(parts[1..], values)
  }

  lemma PieceOfByte(c: char, more: string, values: seq<string>)
    ensures Piece(DoubleBrace(c) + more, values) == Ok(([c], |DoubleBrace(c)|))
  {
    hide Substitute, BraceIndex;
    var s := DoubleBrace(c) + more;
    assert s[0] == c;
    assert |DoubleBrace(c)| == 2 ==> s[1] == c;
  }

  lemma {:induction false} FormatOverLiteral(text: string, tail: string, values: seq<string>)
    ensures Format(DoubleBraces(text) + tail, values) == After(text, Format(tail, values))
  {
    hide Format, Piece, After, DoubleBrace;
    if text == "" {
      assert DoubleBraces("") + tail == tail;
      AfterTwice("", "", Format(tail, values));
    } else {
      var c, more := text[0], DoubleBraces(text[1..]) + tail;
      var s := DoubleBrace(c) + more;
      assert DoubleBraces(text) + tail == s && s[|DoubleBrace(c)|..] == more;
      PieceOfByte(c, more, values);
      FormatStep(s, values);
      FormatOverLiteral(text[1..], tail, values);
      AfterTwice([text[0]], text[1..], Format(tail, values));
      assert [text[0]] + text[1..] == text;
    }
  }

  lemma {:induction false} BraceAfter(s: string, tail: string)
    requires '}' !in s
    ensures BraceIndex(s + "}" + tail) == |s|
  {
    var t := s + "}" + tail;
    if s != "" {
      assert t[1..] == s[1..] + "}" + tail;
      BraceAfter(s[1..], tail);
    }
  }

  /** A placeholder's text runs to the first closing brace, and an opening brace at once would be a literal. */
  predicate TokenText(token: string) {
    '}' !in token && (token != "" ==> token[0] != '{')
  }

  lemma PieceOfToken(token: string, tail: string, values: seq<string>)
    requires TokenText(token)
    ensures var piece, text := Piece("{" + token + "}" + tail, values), Substitute(token, values);
            piece == if text.Ok? then Ok((text.value, |token| + 2)) else Err(text.error)
  {
    hide Substitute, BraceIndex;
    var s := "{" + token + "}" + tail;
    assert token != "" ==> s[1] == token[0];
    BraceAfter("{" + token, tail);
    assert s[1..|token| + 1] == token;
  }

  lemma FormatOverToken(token: string, tail: string, values: seq<string>)
    requires TokenText(token)
    ensures var text := Substitute(token, values);
            Format("{" + token + "}" + tail, values) ==
              if text.Ok? then After(text.value, Format(tail, values)) else Err(text.error)
  {
    hide Format, Substitute, Piece;
    var s := "{" + token + "}" + tail;
    PieceOfToken(token, tail, values);
    assert s[|token| + 2..] == tail;
    if Substitute(token, values).Ok? {
      FormatStep(s, values);
    } else {
      FormatStops(s, values);
    }
  }

  lemma IndexIsToken(index: nat)
    ensures TokenText(Itoa(index)) && SpellsInteger(Itoa(index), index)
  {
    var token := Itoa(index);
    assert IsAsciiDigit(token[0]);
    forall k | 0 <= k < |token| ensures token[k] != '}' {
      assert IsAsciiDigit(token[k]);
    }
    DecimalRoundTrip(index);
    IntegerIsExact(token, index);
  }

  /** The three answers to a placeholder's text. */
  lemma SubstituteIs(token: string, values: seq<string>)
    ensures |values| <= MAX_INT64 ==> forall n | 0 <= n < |values| ::
              SpellsInteger(token, n) ==> Substitute(token, values) == Ok(values[n])
    ensures forall n :: SpellsInteger(token, n) && !(0 <= n < |values|) && -MAX_INT64 - 1 <= n <= MAX_INT64 ==>
              Substitute(token, values) == Err(NoArgument)
    ensures Substitute(token, values) == Err(NotAnIndex) <==>
              !exists n :: SpellsInteger(token, n) && -MAX_INT64 - 1 <= n <= MAX_INT64
  {
    hide ParseInteger, SpellsInteger;
    forall n ensures ParseInteger(token) == Some(n) <==> SpellsInteger(token, n) {
      IntegerIsExact(token, n);
    }
  }

  lemma FormatOverPlaceholder(index: nat, tail: string, values: seq<string>)
    requires index < |values| <= MAX_INT64
    ensures Format("{" + Itoa(index) + "}" + tail, values) == After(values[index], Format(tail, values))
  {
    hide Format, Itoa, Substitute, SpellsInteger, TokenText;
    IndexIsToken(index);
    SubstituteIs(Itoa(index), values);
    FormatOverToken(Itoa(index), tail, values);
  }

  lemma FormatStops(s: string, values: seq<string>)
    requires s != "" && Piece(s, values).Err?
    ensures Format(s, values) == Err(Piece(s, values).error)
  {
  }

  lemma FormatStep(s: string, values: seq<string>)
    requires s != "" && Piece(s, values).Ok?
    ensures Format(s, values) == After(Piece(s, values).value.0, Format(s[Piece(s, values).value.1..], values))
  {
  }

  /** Every placeholder has its argument. */
  predicate Supplied(parts: seq<Part>, values: seq<string>) {
    forall k | 0 <= k < |parts| && parts[k].Placeholder? :: parts[k].index < |values|
  }

  /** A printed template stands for its literals and argument texts, whatever comes after it. */
  lemma {:induction false} FormatOverPrint(parts: seq<Part>, tail: string, values: seq<string>)
    requires |values| <= MAX_INT64 && Supplied(parts, values)
    ensures Format(Print(parts) + tail, values) == After(Render(parts, values), Format(tail, values))
  {
    hide Format, After;
    if parts == [] {
      assert Print(parts) + tail == tail;
      AfterTwice("", "", Format(tail, values));
    } else {
      var rest := Print(parts[1..]) + tail;
      assert Print(parts) + tail == PrintPart(parts[0]) + rest;
      FormatOverPrint(parts[1..], tail, values);
      match parts[0]
      case Literal(text) =>
        FormatOverLiteral(text, rest, values);
        AfterTwice(text, Render(parts[1..], values), Format(tail, values));
      case Placeholder(index) =>
        FormatOverPlaceholder(index, rest, values);
        AfterTwice(values[index], Render(parts[1..], values), Format(tail, values));
    }
  }

  /** FORMAT ROUND TRIP. Formatting a printed template gives its literals and argument texts in order,
      whatever braces the literals hold and wherever they stand. */
  lemma FormatOfPrint(parts: seq<Part>, values: seq<string>)
    requires |values| <= MAX_INT64 && Supplied(parts, values)
    ensures Format(Print(parts), values) == Ok(Render(parts, values))
  {
    FormatOverPrint(parts, "", values);
    assert Print(parts) + "" == Print(parts);
    assert Render(parts, values) + "" == Render(parts, values);
  }

  /** WHAT A PLACEHOLDER'S TEXT COMES TO, behind any printed template. An index is replaced by its argument
      or refused for having none; everything else, a format specifier or an alignment too, is no index. */
  lemma PlaceholderIsExact(parts: seq<Part>, token: string, tail: string, values: seq<string>, n: int)
    requires |values| <= MAX_INT64 && Supplied(parts, values) && TokenText(token)
    ensures var r := Format(Print(parts) + ("{" + token + "}" + tail), values);
            && (SpellsInteger(token, n) && 0 <= n < |values| ==>
                  r == After(Render(parts, values) + values[n], Format(tail, values)))
            && (SpellsInteger(token, n) && !(0 <= n < |values|) && -MAX_INT64 - 1 <= n <= MAX_INT64 ==>
                  r == Err(NoArgument))
            && ((!exists i :: SpellsInteger(token, i) && -MAX_INT64 - 1 <= i <= MAX_INT64) ==> r == Err(NotAnIndex))
  {
    hide Format, Substitute, SpellsInteger, Print, Render;
    var goal := Format(tail, values);
    SubstituteIs(token, values);
    FormatOverToken(token, tail, values);
    FormatOverPrint(parts, "{" + token + "}" + tail, values);
    if 0 <= n < |values| {
      AfterTwice(Render(parts, values), values[n], goal);
    }
  }

  /** A sign and digits are all an index holds: one other byte, and it is none. */
  lemma SpecifierIsNoIndex(token: string, k: nat, n: int)
    requires k < |token| && !IsAsciiDigit(token[k]) && (k > 0 || token[k] !in "+-")
    ensures !SpellsInteger(token, n)
  {
    IntegerIsExact(token, n);
    var digits := if token[0] in "+-" then token[1..] else token;
    assert token[0] in "+-" ==> digits[k - 1] == token[k];
  }

  /** An opening brace that nothing closes is refused, behind any printed template. */
  lemma UnclosedIsRefused(parts: seq<Part>, token: string, values: seq<string>)
    requires |values| <= MAX_INT64 && Supplied(parts, values) && TokenText(token)
    ensures Format(Print(parts) + ("{" + token), values) == Err(UnclosedPlaceholder)
  {
    hide Format, Print, Render;
    var s := "{" + token;
    assert token != "" ==> s[1] == token[0];
    NoBrace(s);
    FormatStops(s, values);
    FormatOverPrint(parts, s, values);
  }

  lemma {:induction false} NoBrace(s: string)
    requires '}' !in s
    ensures BraceIndex(s) == |s|
  {
    if s != "" {
      NoBrace(s[1..]);
    }
  }

  /** A closing brace by itself stands for itself. */
  lemma LoneBraceStands(parts: seq<Part>, tail: string, values: seq<string>)
    requires |values| <= MAX_INT64 && Supplied(parts, values) && (tail == "" || tail[0] != '}')
    ensures Format(Print(parts) + ("}" + tail), values) == After(Render(parts, values) + "}", Format(tail, values))
  {
    hide Format, Print, Render;
    var s := "}" + tail;
    assert tail != "" ==> s[1] == tail[0];
    assert Piece(s, values) == Ok(("}", 1)) && s[1..] == tail;
    FormatStep(s, values);
    FormatOverPrint(parts, s, values);
    AfterTwice(Render(parts, values), "}", Format(tail, values));
  }

  /** And a placeholder without an argument is always refused, whatever stands before or after it. */
  lemma {:induction false} MissingArgumentIsRefused(parts: seq<Part>, values: seq<string>, k: nat)
    requires |values| <= MAX_INT64
    requires k < |parts| && parts[k].Placeholder? && |values| <= parts[k].index
    ensures var r := Format(Print(parts), values);
            r.Err? && ((forall i | 0 <= i < |parts| && parts[i].Placeholder? :: parts[i].index <= MAX_INT64) ==>
                         r.error == NoArgument)
  {
    hide Format;
    var tail := Print(parts[1..]);
    match parts[0]
    case Literal(text) =>
      FormatOverLiteral(text, tail, values);
      MissingArgumentIsRefused(parts[1..], values, k - 1);
    case Placeholder(index) =>
      if index < |values| {
        FormatOverPlaceholder(index, tail, values);
        MissingArgumentIsRefused(parts[1..], values, k - 1);
      } else {
        RefusedPlaceholder(index, tail, values);
      }
  }

  lemma RefusedPlaceholder(index: nat, tail: string, values: seq<string>)
    requires |values| <= index
    ensures var r := Format("{" + Itoa(index) + "}" + tail, values);
            r.Err? && (index <= MAX_INT64 ==> r.error == NoArgument)
  {
    hide Itoa, Format, Piece, ParseInteger, SpellsInteger, TokenText;
    IndexIsToken(index);
    IntegerIsExact(Itoa(index), index);
    FormatOverToken(Itoa(index), tail, values);
  }
}
