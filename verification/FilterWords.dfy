/** What the words of a filter say, from its tokens to its outcome: the operators of numbers, the functions
    of strings, the literals, the connectives with their precedence and the two quantifiers. */
module FilterWords {
  import opened Wrappers
  import opened GoStrings
  import opened Filter
  import opened FilterGrammar
  import opened FilterText
  import opened FilterMeaning

  /** The outcome of the filter that these tokens are, on a resource. */
  function OutcomeOf(num: Numbers, ts: seq<Token>, v: Value): Option<Outcome>
    requires Terminated(ts)
  {
    match ParseOr(ts, None)
    case Ok((p, rest)) => if rest == [EOF] then Some(Meaning(num, p, v)) else None
    case Err(_) => None
  }

  /** A spelling has the outcome of the filter it spells. */
  lemma SpelledOutcome(num: Numbers, ts: seq<Token>, p: Predicate, v: Value)
    requires SpellsOr(ts, p)
    ensures Terminated(ts + [EOF]) && OutcomeOf(num, ts + [EOF], v) == Some(Meaning(num, p, v))
  {
    hide ParseOr, SpellsOr, Meaning, Admits;
    EndFollows();
    SpellingIsRead(ts, p, [EOF], None);
    assert Admits(None, p) by { AllAdmitted(p); }
  }

  lemma AllAdmitted(p: Predicate)
    ensures Admits(None, p)
  {
  }

  lemma PrimaryIsFilter(ts: seq<Token>, p: Predicate)
    requires SpellsPrimary(ts, p)
    ensures SpellsAnd(ts, p) && SpellsOr(ts, p)
  {
    hide SpellsPrimary;
  }

  // --- Comparisons ---

  predicate OperatorSays(word: string, x: real, y: real) {
    || (word == "eq" && x == y) || (word == "ne" && x != y)
    || (word == "gt" && x > y) || (word == "ge" && x >= y)
    || (word == "lt" && x < y) || (word == "le" && x <= y)
  }

  const OPERATORS := ["eq", "ne", "gt", "ge", "lt", "le"]

  function ComparisonTokens(field: string, word: string, literal: Token): seq<Token> {
    [Identifier(field), Identifier(word), literal]
  }

  lemma ComparisonSpells(field: string, word: string, literal: Token, p: Predicate)
    requires OperatorOf(ToLower(word)).Some? && OperandOf(literal).Some?
    requires p == Compare(field, OperatorOf(ToLower(word)).value, OperandOf(literal).value)
    ensures SpellsPrimary(ComparisonTokens(field, word, literal), p)
  {
  }

  /** `field word number`, with the word in any case. */
  lemma OperatorsMean(num: Numbers, field: string, word: string, text: string, x: real, y: real, v: Value)
    requires ToLower(word) in OPERATORS && FieldValue(v, field) == Some(Number(x)) && num(text) == Some(y)
    ensures var ts := ComparisonTokens(field, word, Numeral(text)) + [EOF];
            Terminated(ts) && OutcomeOf(num, ts, v) == Some(Truth(OperatorSays(ToLower(word), x, y)))
  {
    hide FieldValue, OutcomeOf, SpellsPrimary, SpellsOr;
    var p := Compare(field, OperatorOf(ToLower(word)).value, NumberLiteral(text));
    ComparisonSpells(field, word, Numeral(text), p);
    PrimaryIsFilter(ComparisonTokens(field, word, Numeral(text)), p);
    SpelledOutcome(num, ComparisonTokens(field, word, Numeral(text)), p, v);
  }

  /** The value of a literal: a quoted text, a number or one of the three words in any case. */
  function LiteralValue(num: Numbers, literal: Token): Option<Value> {
    match literal
    case Quoted(text) => Some(String(text))
    case Numeral(text) => (match num(text) case Some(n) => Some(Number(n)) case None => None)
    case Identifier(text) =>
      if ToLower(text) == "true" then Some(Bool(true))
      else if ToLower(text) == "false" then Some(Bool(false))
      else if ToLower(text) == "null" then Some(Null)
      else None
    case _ => None
  }

  /** `field eq literal` holds of just the resources whose field has that value. */
  lemma LiteralsMean(num: Numbers, field: string, word: string, literal: Token, v: Value)
    requires ToLower(word) == "eq" && LiteralValue(num, literal).Some?
    ensures var ts := ComparisonTokens(field, word, literal) + [EOF];
            && Terminated(ts)
            && (OutcomeOf(num, ts, v) == Some(Yes) <==> FieldValue(v, field) == LiteralValue(num, literal))
  {
    hide FieldValue, OutcomeOf, SpellsPrimary, SpellsOr, Meaning;
    var p := Compare(field, Eq, OperandOf(literal).value);
    ComparisonSpells(field, word, literal, p);
    PrimaryIsFilter(ComparisonTokens(field, word, literal), p);
    SpelledOutcome(num, ComparisonTokens(field, word, literal), p, v);
    EqualsLiteral(num, field, v, if literal.Identifier? then "" else literal.text, p.operand == BoolLiteral(true));
  }

  // --- Functions ---

  ghost predicate FunctionSays(word: string, a: string, b: string) {
    || (word == "contains" && OccursIn(b, a))
    || (word == "startswith" && b <= a)
    || (word == "endswith" && exists before :: a == before + b)
    || (word == "substringof" && OccursIn(a, b))
  }

  const FUNCTIONS := ["contains", "startswith", "endswith", "substringof"]

  function CallTokens(word: string, first: Token, second: Token): seq<Token> {
    [Identifier(word), LeftParen, first, Comma, second, RightParen]
  }

  /** `word(first, second)` of two arguments that are strings, whichever of them are fields. */
  lemma FunctionsMean(num: Numbers, word: string, first: Token, second: Token, a: string, b: string, v: Value)
    requires ToLower(word) in FUNCTIONS && OperandOf(first).Some? && OperandOf(second).Some?
    requires OperandValue(num, OperandOf(first).value, v) == Some(String(a))
    requires OperandValue(num, OperandOf(second).value, v) == Some(String(b))
    ensures var ts := CallTokens(word, first, second) + [EOF];
            Terminated(ts) && OutcomeOf(num, ts, v) == Some(Truth(FunctionSays(ToLower(word), a, b)))
  {
    hide OperandValue, OperandOf, OutcomeOf, SpellsOr, CallValues, OccursIn;
    var p := Call(FunctionOf(ToLower(word)).value, OperandOf(first).value, OperandOf(second).value);
    var ts := CallTokens(word, first, second);
    assert SpellsPrimary(ts, p) by { CallSpells(word, first, second, p); }
    PrimaryIsFilter(ts, p);
    SpelledOutcome(num, ts, p, v);
    CallsMean(p.fn, String(a), String(b));
    assert b <= a <==> exists after :: a == b + after by {
      if b <= a {
        assert a == b + a[|b|..];
      }
    }
  }

  lemma CallSpells(word: string, first: Token, second: Token, p: Predicate)
    requires ToLower(word) in FUNCTIONS && OperandOf(first).Some? && OperandOf(second).Some?
    requires p == Call(FunctionOf(ToLower(word)).value, OperandOf(first).value, OperandOf(second).value)
    ensures SpellsPrimary(CallTokens(word, first, second), p)
  {
    hide OperandOf;
    assert SpellsCall(CallTokens(word, first, second), p);
  }

  // --- Connectives ---

  /** The second counts only while the first does not hold, or fail. */
  function OrElse(a: Outcome, b: Outcome): Outcome {
    if a == No then b else a
  }

  /** The second counts only while the first holds. */
  function AndThen(a: Outcome, b: Outcome): Outcome {
    if a == Yes then b else a
  }

  lemma MeaningOfBoth(num: Numbers, p: Predicate, q: Predicate, v: Value)
    ensures Meaning(num, Or(p, q), v) == OrElse(Meaning(num, p, v), Meaning(num, q, v))
    ensures Meaning(num, And(p, q), v) == AndThen(Meaning(num, p, v), Meaning(num, q, v))
  {
  }

  /** AND BINDS TIGHTER THAN OR, on the right of it. */
  lemma OrAndMeans(num: Numbers, ts: seq<Token>, p: Predicate, us: seq<Token>, q: Predicate, ws: seq<Token>,
                   r: Predicate, or: Token, and: Token, v: Value)
    requires SpellsPrimary(ts, p) && SpellsPrimary(us, q) && SpellsPrimary(ws, r)
    requires Keyword(or, "or") && Keyword(and, "and")
    ensures var all := ts + [or] + (us + [and] + ws) + [EOF];
            Terminated(all) && OutcomeOf(num, all, v) ==
              Some(OrElse(Meaning(num, p, v), AndThen(Meaning(num, q, v), Meaning(num, r, v))))
  {
    hide OutcomeOf, SpellsPrimary, SpellsAnd, SpellsOr, Terminated, Keyword, Meaning, OrElse, AndThen;
    PrimaryIsFilter(ts, p);
    PrimaryIsFilter(us, q);
    AndJoins(us, and, ws, q, r);
    OrJoins(ts, or, us + [and] + ws, p, And(q, r));
    SpelledOutcome(num, ts + [or] + (us + [and] + ws), Or(p, And(q, r)), v);
    MeaningOfBoth(num, q, r, v);
    MeaningOfBoth(num, p, And(q, r), v);
  }

  /** So it does on the left. */
  lemma AndOrMeans(num: Numbers, ts: seq<Token>, p: Predicate, us: seq<Token>, q: Predicate, ws: seq<Token>,
                   r: Predicate, and: Token, or: Token, v: Value)
    requires SpellsPrimary(ts, p) && SpellsPrimary(us, q) && SpellsPrimary(ws, r)
    requires Keyword(or, "or") && Keyword(and, "and")
    ensures var all := ts + [and] + us + [or] + ws + [EOF];
            Terminated(all) && OutcomeOf(num, all, v) ==
              Some(OrElse(AndThen(Meaning(num, p, v), Meaning(num, q, v)), Meaning(num, r, v)))
  {
    hide OutcomeOf, SpellsPrimary, SpellsAnd, SpellsOr, Terminated, Keyword, Meaning, OrElse, AndThen;
    PrimaryIsFilter(ts, p);
    PrimaryIsFilter(ws, r);
    AndJoins(ts, and, us, p, q);
    AndIsOr(ts + [and] + us, And(p, q));
    OrJoins(ts + [and] + us, or, ws, And(p, q), r);
    SpelledOutcome(num, ts + [and] + us + [or] + ws, Or(And(p, q), r), v);
    MeaningOfBoth(num, p, q, v);
    MeaningOfBoth(num, And(p, q), r, v);
  }

  /** Parentheses bind tightest. */
  lemma GroupMeans(num: Numbers, ts: seq<Token>, p: Predicate, us: seq<Token>, q: Predicate, ws: seq<Token>,
                   r: Predicate, or: Token, and: Token, v: Value)
    requires SpellsPrimary(ts, p) && SpellsPrimary(us, q) && SpellsPrimary(ws, r)
    requires Keyword(or, "or") && Keyword(and, "and")
    ensures var all := [LeftParen] + (ts + [or] + us) + [RightParen] + [and] + ws + [EOF];
            Terminated(all) && OutcomeOf(num, all, v) ==
              Some(AndThen(OrElse(Meaning(num, p, v), Meaning(num, q, v)), Meaning(num, r, v)))
  {
    hide OutcomeOf, SpellsPrimary, SpellsAnd, SpellsOr, Terminated, Keyword, Meaning, OrElse, AndThen;
    PrimaryIsFilter(ts, p);
    PrimaryIsFilter(us, q);
    OrJoins(ts, or, us, p, q);
    ParenthesisSpells(ts + [or] + us, Or(p, q));
    var grouped := [LeftParen] + (ts + [or] + us) + [RightParen];
    PrimaryIsFilter(grouped, Or(p, q));
    AndJoins(grouped, and, ws, Or(p, q), r);
    AndIsOr(grouped + [and] + ws, And(Or(p, q), r));
    SpelledOutcome(num, grouped + [and] + ws, And(Or(p, q), r), v);
    MeaningOfBoth(num, p, q, v);
    MeaningOfBoth(num, Or(p, q), r, v);
  }

  // --- Quantifiers ---

  function LambdaTokens(word: string, variable: string, body: seq<Token>): seq<Token> {
    [Identifier(word), LeftParen, Identifier(variable), Colon] + body + [RightParen]
  }

  /** `tags/any(x: x eq 'text')` holds when some tag is that text, `tags/all(x: ...)` when every tag is. */
  lemma QuantifiersMean(num: Numbers, word: string, variable: string, text: string, items: seq<Value>, v: Value)
    requires ToLower(word) in ["tags/any", "tags/all"] && '/' !in variable
    requires FieldValue(v, "tags") == Some(Array(items)) && forall k | 0 <= k < |items| :: items[k].String?
    ensures var ts := LambdaTokens(word, variable, ComparisonTokens(variable, "eq", Quoted(text))) + [EOF];
            Terminated(ts) && OutcomeOf(num, ts, v) ==
              Some(Truth(if ToLower(word) == "tags/any" then String(text) in items
                         else forall k | 0 <= k < |items| :: items[k] == String(text)))
  {
    hide FieldValue, OutcomeOf, SpellsPrimary, SpellsOr, Meaning, OperatorOf;
    var all := ToLower(word) == "tags/all";
    var body := Compare(variable, Eq, StringLiteral(text));
    var inner := ComparisonTokens(variable, "eq", Quoted(text));
    EqIsOperator();
    ComparisonSpells(variable, "eq", Quoted(text), body);
    PrimaryIsFilter(inner, body);
    LambdaSpells([Identifier(word), LeftParen, Identifier(variable), Colon], inner, Lambda(all, variable, body));
    PrimaryIsFilter(LambdaTokens(word, variable, inner), Lambda(all, variable, body));
    SpelledOutcome(num, LambdaTokens(word, variable, inner), Lambda(all, variable, body), v);
    LambdaOnTexts(num, all, variable, text, items, v);
  }

  lemma EqIsOperator()
    ensures ToLower("eq") == "eq" && OperatorOf(ToLower("eq")) == Some(Eq)
  {
    assert ToLower("eq") == "eq";
  }

  lemma LambdaOnTexts(num: Numbers, all: bool, variable: string, text: string, items: seq<Value>, v: Value)
    requires '/' !in variable && FieldValue(v, "tags") == Some(Array(items))
    requires forall k | 0 <= k < |items| :: items[k].String?
    ensures Meaning(num, Lambda(all, variable, Compare(variable, Eq, StringLiteral(text))), v) ==
              Truth(if all then forall k | 0 <= k < |items| :: items[k] == String(text) else String(text) in items)
  {
    hide FieldValue, CompareValues;
    var body := Compare(variable, Eq, StringLiteral(text));
    QuantifyMeans(num, all, variable, body, items);
    forall k | 0 <= k < |items|
      ensures ItemMeaning(num, variable, body, items[k]) == Truth(items[k] == String(text))
    {
      VariableIsItem(variable, items[k], variable);
      ComparisonsMean(items[k], String(text), Eq);
    }
  }
}
