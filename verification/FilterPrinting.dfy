/** Printing a filter: the printed tokens spell it, so that the parser, which reads every spelling, inverts
    the printer. */
module FilterPrinting {
  import opened Wrappers
  import opened GoStrings
  import opened Filter
  import opened FilterGrammar

  // --- Filters as tokens: parentheses only where precedence needs them ---

  function OperatorText(op: Operator): string {
    match op
    case Eq => "eq"
    case Ne => "ne"
    case Gt => "gt"
    case Ge => "ge"
    case Lt => "lt"
    case Le => "le"
  }

  function FunctionText(fn: Function): string {
    match fn
    case Contains => "contains"
    case StartsWith => "startswith"
    case EndsWith => "endswith"
    case SubstringOf => "substringof"
    case Any => "tags/any"
    case All => "tags/all"
  }

  function OperandToken(operand: Operand): Token {
    match operand
    case StringLiteral(text) => Quoted(text)
    case NumberLiteral(text) => Numeral(text)
    case BoolLiteral(b) => Identifier(if b then "true" else "false")
    case NullLiteral => Identifier("null")
    case Field(name) => Identifier(name)
  }

  function PrintOr(p: Predicate): seq<Token>
    decreases p, 2
  {
    match p
    case Or(left, right) => PrintOr(left) + [Identifier("or")] + PrintAnd(right)
    case _ => PrintAnd(p)
  }

  function PrintAnd(p: Predicate): seq<Token>
    decreases p, if p.Or? then 4 else 1
  {
    match p
    case And(left, right) => PrintAnd(left) + [Identifier("and")] + PrintPrimary(right)
    case _ => PrintPrimary(p)
  }

  function PrintPrimary(p: Predicate): seq<Token>
    decreases p, if p.Or? || p.And? then 3 else 0
  {
    match p
    case Or(_, _) => [LeftParen] + PrintOr(p) + [RightParen]
    case And(_, _) => [LeftParen] + PrintOr(p) + [RightParen]
    case Compare(field, op, operand) => [Identifier(field), Identifier(OperatorText(op)), OperandToken(operand)]
    case Call(fn, first, second) =>
      [Identifier(FunctionText(fn)), LeftParen, OperandToken(first), Comma, OperandToken(second), RightParen]
    case Lambda(all, variable, body) =>
      [Identifier(if all then "tags/all" else "tags/any"), LeftParen, Identifier(variable), Colon]
      + PrintOr(body) + [RightParen]
  }

  /** A field operand must not spell a literal; and calls name one of the four functions. */
  predicate OperandOk(operand: Operand) {
    operand.Field? ==> ToLower(operand.name) !in ["true", "false", "null"]
  }

  predicate WellFormed(p: Predicate) {
    match p
    case Or(left, right) => WellFormed(left) && WellFormed(right)
    case And(left, right) => WellFormed(left) && WellFormed(right)
    case Compare(_, _, operand) => OperandOk(operand)
    case Call(fn, first, second) => fn != Any && fn != All && OperandOk(first) && OperandOk(second)
    case Lambda(_, _, body) => WellFormed(body)
  }

  // --- Parsing what was printed ---

  lemma OperatorRoundTrip(op: Operator)
    ensures OperatorOf(ToLower(OperatorText(op))) == Some(op)
  {
    assert ToLower("eq") == "eq" && ToLower("ne") == "ne" && ToLower("gt") == "gt";
    assert ToLower("ge") == "ge" && ToLower("lt") == "lt" && ToLower("le") == "le";
  }

  lemma FunctionRoundTrip(fn: Function)
    requires fn != Any && fn != All
    ensures FunctionOf(ToLower(FunctionText(fn))) == Some(fn)
    ensures ToLower(FunctionText(fn)) != "tags/any" && ToLower(FunctionText(fn)) != "tags/all"
  {
    assert ToLower("contains") == "contains" && ToLower("startswith") == "startswith";
    assert ToLower("endswith") == "endswith" && ToLower("substringof") == "substringof";
  }

  lemma OperandRoundTrip(operand: Operand)
    requires OperandOk(operand)
    ensures OperandOf(OperandToken(operand)) == Some(operand)
  {
    FoldedWords();
  }

  /** A PRINTED FILTER SPELLS ITSELF, at every level. */
  lemma {:induction false} PrintSpells(p: Predicate)
    requires WellFormed(p)
    ensures SpellsOr(PrintOr(p), p) && SpellsAnd(PrintAnd(p), p) && SpellsPrimary(PrintPrimary(p), p)
    decreases p
  {
    hide SpellsOr, SpellsAnd, SpellsPrimary, WellFormed, OperandToken, OperatorText, FunctionText;
    PartsWellFormed(p);
    match p
    case Or(left, right) =>
      PrintSpells(left);
      PrintSpells(right);
      OrJoins(PrintOr(left), Identifier("or"), PrintAnd(right), left, right);
      InParentheses(p);
    case And(left, right) =>
      PrintSpells(left);
      PrintSpells(right);
      AndJoins(PrintAnd(left), Identifier("and"), PrintPrimary(right), left, right);
      AndIsOr(PrintAnd(p), p);
      assert PrintOr(p) == PrintAnd(p);
      InParentheses(p);
    case Compare(_, _, _) =>
      ComparisonSpells(p);
      OfPrimary(p);
    case Call(_, _, _) =>
      CallSpells(p);
      OfPrimary(p);
    case Lambda(all, variable, body) =>
      PrintSpells(body);
      var head := [Identifier(if all then "tags/all" else "tags/any"), LeftParen, Identifier(variable), Colon];
      FoldedWords();
      assert LambdaHead(head, p);
      LambdaSpells(head, PrintOr(body), p);
      assert PrintPrimary(p) == head + PrintOr(body) + [RightParen];
      OfPrimary(p);
  }

  lemma PartsWellFormed(p: Predicate)
    requires WellFormed(p)
    ensures p.Or? || p.And? ==> WellFormed(p.left) && WellFormed(p.right)
    ensures p.Lambda? ==> WellFormed(p.body)
  {
  }

  lemma OfPrimary(p: Predicate)
    requires !p.Or? && !p.And? && SpellsPrimary(PrintPrimary(p), p)
    ensures SpellsOr(PrintOr(p), p) && SpellsAnd(PrintAnd(p), p)
  {
    hide SpellsOr, SpellsAnd, SpellsPrimary, PrintPrimary;
    PrimaryIsAnd(PrintPrimary(p), p);
    AndIsOr(PrintPrimary(p), p);
    assert PrintOr(p) == PrintAnd(p) == PrintPrimary(p);
  }

  lemma InParentheses(p: Predicate)
    requires (p.Or? || p.And?) && SpellsOr(PrintOr(p), p)
    ensures SpellsPrimary(PrintPrimary(p), p) && (p.Or? ==> SpellsAnd(PrintAnd(p), p))
  {
    hide SpellsOr, SpellsAnd, SpellsPrimary, PrintOr;
    ParenthesisSpells(PrintOr(p), p);
    PrimaryIsAnd(PrintPrimary(p), p);
    assert p.Or? ==> PrintAnd(p) == PrintPrimary(p);
  }

  lemma ComparisonSpells(p: Predicate)
    requires p.Compare? && WellFormed(p)
    ensures SpellsPrimary(PrintPrimary(p), p)
  {
    hide SpellsOr, OperandOf, OperandToken, OperatorOf, OperatorText, ToLower;
    OperatorRoundTrip(p.op);
    OperandRoundTrip(p.operand);
    assert SpellsComparison(PrintPrimary(p), p);
  }

  lemma CallSpells(p: Predicate)
    requires p.Call? && WellFormed(p)
    ensures SpellsPrimary(PrintPrimary(p), p)
  {
    hide SpellsOr, OperandOf, OperandToken, FunctionOf, FunctionText, ToLower;
    FunctionRoundTrip(p.fn);
    OperandRoundTrip(p.first);
    OperandRoundTrip(p.second);
    assert SpellsCall(PrintPrimary(p), p);
  }

  /** PARSING INVERTS PRINTING: `and` binds tighter than `or`, both associate to the left. */
  lemma ParseOrOfPrint(p: Predicate, rest: seq<Token>, contract: Contract)
    requires WellFormed(p) && Follows(rest, "and") && Follows(rest, "or")
    ensures Terminated(PrintOr(p) + rest)
    ensures Reads(ParseOr(PrintOr(p) + rest, contract), Admits(contract, p), Ok((p, rest)))
  {
    hide ParseOr, SpellsOr, PrintOr, Admits;
    PrintSpells(p);
    SpellingIsRead(PrintOr(p), p, rest, contract);
  }
}
