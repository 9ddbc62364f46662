/** What a filter accepted under a contract is, and what it can see. */
module FilterContracts {
  import opened Wrappers
  import opened GoStrings
  import opened Filter
  import opened FilterGrammar
  import opened FilterPrinting
  import opened FilterText

  // --- What the parser makes of tokens that have a spelling ---

  /** All tokens but the last, which ends them, have a spelling. */
  predicate Known(num: Numbers, ts: seq<Token>) {
    forall k | 0 <= k < |ts| - 1 :: Spellable(num, ts[k])
  }

  lemma KnownFrom(num: Numbers, ts: seq<Token>, n: nat)
    requires Known(num, ts) && n <= |ts|
    ensures Known(num, ts[n..])
  {
    hide Spellable;
  }

  lemma KnownRest(num: Numbers, ts: seq<Token>, rest: seq<Token>)
    requires Known(num, ts) && LeftOver(rest, ts)
    ensures Known(num, rest)
  {
    LeftOverIsSlice(rest, ts);
    KnownFrom(num, ts, |ts| - |rest|);
  }

  /** The names and literals of a filter have a spelling. */
  predicate Spelled(num: Numbers, p: Predicate) {
    match p
    case Or(left, right) => Spelled(num, left) && Spelled(num, right)
    case And(left, right) => Spelled(num, left) && Spelled(num, right)
    case Compare(field, _, operand) => Spellable(num, Identifier(field)) && OperandSpelled(num, operand)
    case Call(_, first, second) => OperandSpelled(num, first) && OperandSpelled(num, second)
    case Lambda(_, variable, body) => Spellable(num, Identifier(variable)) && Spelled(num, body)
  }

  predicate OperandSpelled(num: Numbers, operand: Operand) {
    operand.Field? || operand.NumberLiteral? ==> Spellable(num, OperandToken(operand))
  }

  /** Parsed under a contract: admitted by it, and fit to be printed. */
  predicate Sound(num: Numbers, r: Parsed, contract: Contract) {
    r.Ok? ==> Fit(num, r.value.0, contract)
  }

  predicate Fit(num: Numbers, p: Predicate, contract: Contract) {
    Admits(contract, p) && WellFormed(p) && Spelled(num, p)
  }

  lemma {:induction false} ParseOrIsSound(num: Numbers, ts: seq<Token>, contract: Contract)
    requires Terminated(ts) && Known(num, ts)
    ensures Sound(num, ParseOr(ts, contract), contract)
    decreases |ts|, 4
  {
    hide ParseAnd, OrTail, Known, Fit;
    ParseAndIsSound(num, ts, contract);
    var left := ParseAnd(ts, contract);
    if left.Ok? {
      KnownRest(num, ts, left.value.1);
      OrTailIsSound(num, left.value.0, left.value.1, contract);
    }
  }

  lemma {:induction false} OrTailIsSound(num: Numbers, left: Predicate, ts: seq<Token>, contract: Contract)
    requires Terminated(ts) && Known(num, ts) && Fit(num, left, contract)
    ensures Sound(num, OrTail(left, ts, contract), contract)
    decreases |ts|, 5
  {
    hide ParseAnd, Known, Fit;
    if Keyword(ts[0], "or") {
      KnownFrom(num, ts, 1);
      ParseAndIsSound(num, ts[1..], contract);
      var right := ParseAnd(ts[1..], contract);
      if right.Ok? {
        KnownRest(num, ts[1..], right.value.1);
        BothFit(num, left, right.value.0, contract);
        OrTailIsSound(num, Or(left, right.value.0), right.value.1, contract);
      }
    }
  }

  lemma BothFit(num: Numbers, p: Predicate, q: Predicate, contract: Contract)
    requires Fit(num, p, contract) && Fit(num, q, contract)
    ensures Fit(num, Or(p, q), contract) && Fit(num, And(p, q), contract)
  {
  }

  lemma {:induction false} ParseAndIsSound(num: Numbers, ts: seq<Token>, contract: Contract)
    requires Terminated(ts) && Known(num, ts)
    ensures Sound(num, ParseAnd(ts, contract), contract)
    decreases |ts|, 2
  {
    hide ParsePrimary, AndTail, Known, Fit;
    ParsePrimaryIsSound(num, ts, contract);
    var left := ParsePrimary(ts, contract);
    if left.Ok? {
      KnownRest(num, ts, left.value.1);
      AndTailIsSound(num, left.value.0, left.value.1, contract);
    }
  }

  lemma {:induction false} AndTailIsSound(num: Numbers, left: Predicate, ts: seq<Token>, contract: Contract)
    requires Terminated(ts) && Known(num, ts) && Fit(num, left, contract)
    ensures Sound(num, AndTail(left, ts, contract), contract)
    decreases |ts|, 3
  {
    hide ParsePrimary, Known, Fit;
    if Keyword(ts[0], "and") {
      KnownFrom(num, ts, 1);
      ParsePrimaryIsSound(num, ts[1..], contract);
      var right := ParsePrimary(ts[1..], contract);
      if right.Ok? {
        KnownRest(num, ts[1..], right.value.1);
        BothFit(num, left, right.value.0, contract);
        AndTailIsSound(num, And(left, right.value.0), right.value.1, contract);
      }
    }
  }

  lemma {:induction false} ParsePrimaryIsSound(num: Numbers, ts: seq<Token>, contract: Contract)
    requires Terminated(ts) && Known(num, ts)
    ensures Sound(num, ParsePrimary(ts, contract), contract)
    decreases |ts|, 1
  {
    hide ParseOr, ParseFunction, ParseComparison, Fit, Spellable;
    if ts[0] == LeftParen {
      KnownFrom(num, ts, 1);
      ParseOrIsSound(num, ts[1..], contract);
    } else if ts[0].Identifier? {
      if ts[1] == LeftParen {
        KnownFrom(num, ts, 2);
        ParseFunctionIsSound(num, ts[0].text, ts[2..], contract);
      } else {
        KnownFrom(num, ts, 1);
        ParseComparisonIsSound(num, ts[0].text, ts[1..], contract);
      }
    }
  }

  lemma ParsedOperandIsOk(num: Numbers, t: Token)
    requires t == EOF || Spellable(num, t)
    ensures OperandOf(t).Some? ==> OperandOk(OperandOf(t).value) && OperandSpelled(num, OperandOf(t).value)
  {
  }

  lemma ParseComparisonIsSound(num: Numbers, field: string, ts: seq<Token>, contract: Contract)
    requires Terminated(ts) && Known(num, ts) && Spellable(num, Identifier(field))
    ensures Sound(num, ParseComparison(field, ts, contract), contract)
  {
    hide Spellable, OperandSpelled, OperandOf, OperandOk;
    if ts[0].Identifier? && OperatorOf(ToLower(ts[0].text)).Some? {
      ParsedOperandIsOk(num, ts[1]);
    }
  }

  lemma {:induction false} ParseFunctionIsSound(num: Numbers, text: string, ts: seq<Token>, contract: Contract)
    requires Terminated(ts) && Known(num, ts)
    ensures Sound(num, ParseFunction(text, ts, contract), contract)
    decreases |ts|, 1
  {
    hide ParseOr, ParseLambda, ParseCall;
    var name := ToLower(text);
    if name == "tags/any" || name == "tags/all" {
      ParseLambdaIsSound(num, name == "tags/all", ts, contract);
    } else if FunctionOf(name).Some? {
      ParseCallIsSound(num, FunctionOf(name).value, ts, contract);
    }
  }

  lemma ParseCallIsSound(num: Numbers, fn: Function, ts: seq<Token>, contract: Contract)
    requires Terminated(ts) && Known(num, ts) && fn != Any && fn != All
    ensures Sound(num, ParseCall(fn, ts, contract), contract)
  {
    assert OperandOf(EOF) == None;
    hide Spellable, OperandSpelled, OperandOf, OperandOk;
    if OperandOf(ts[0]).Some? && ts[1] == Comma {
      ParsedOperandIsOk(num, ts[0]);
      ParsedOperandIsOk(num, ts[2]);
    }
  }

  lemma {:induction false} ParseLambdaIsSound(num: Numbers, all: bool, ts: seq<Token>, contract: Contract)
    requires Terminated(ts) && Known(num, ts)
    ensures Sound(num, ParseLambda(all, ts, contract), contract)
    decreases |ts|, 0
  {
    hide ParseOr, Spellable;
    FoldedWords();
    if ts[0].Identifier? && ts[1] == Colon {
      KnownFrom(num, ts, 2);
      ParseOrIsSound(num, ts[2..], None);
    }
  }

  // --- What the lexer makes of text ---

  lemma WordIsSpellable(num: Numbers, s: string)
    requires s != "" && !Delimiter(s[0]) && s[0] != '\''
    ensures Spellable(num, Word(num, s[..WordLength(s)]))
  {
  }

  lemma {:induction false} LexedIsKnown(num: Numbers, s: string)
    ensures LexFilter(num, s).Ok? ==> Known(num, LexFilter(num, s).value)
    decreases |s|
  {
    hide Filter.NextToken, Spellable;
    if s != "" && SpaceByte(s[0]) {
      LexedIsKnown(num, s[1..]);
    } else if s != "" && Filter.NextToken(num, s).Ok? {
      var (t, n) := Filter.NextToken(num, s).value;
      NextIsSpellable(num, s);
      LexedIsKnown(num, s[n..]);
    }
  }

  lemma NextIsSpellable(num: Numbers, s: string)
    requires s != "" && !SpaceByte(s[0]) && Filter.NextToken(num, s).Ok?
    ensures Spellable(num, Filter.NextToken(num, s).value.0)
  {
    hide Spellable, WordLength;
    if s[0] in "(),:'" {
      MarksAreSpellable(num);
    } else {
      WordIsSpellable(num, s);
    }
  }

  lemma MarksAreSpellable(num: Numbers)
    ensures forall t: Token | t.Quoted? || t in {LeftParen, RightParen, Comma, Colon} :: Spellable(num, t)
  {
  }

  /** CONTRACT SOUNDNESS: whatever text is accepted under a contract, the contract admits the filter
      it was read as; and that filter can be printed. */
  lemma AcceptedIsAdmitted(num: Numbers, source: string, contract: Contract)
    ensures var r := FilterOf(num, source, contract);
            r.Ok? && r.value.Some? ==>
              var p := r.value.value;
              Admits(contract, p) && WellFormed(p) && Spelled(num, p)
  {
    hide ParseOr, TrimSpace, LexFilter;
    var tokens := LexFilter(num, source);
    if tokens.Ok? {
      LexedIsKnown(num, source);
      ParseOrIsSound(num, tokens.value, contract);
    }
  }

  // --- Printing what was accepted ---

  const OPERATOR_WORDS: set<string> := {"or", "and", "eq", "ne", "gt", "ge", "lt", "le"}

  const LITERAL_WORDS: set<string> := {"true", "false", "null"}

  const FUNCTION_WORDS: set<string> := {"contains", "startswith", "endswith", "substringof", "tags/any", "tags/all"}

  /** The words a printed filter uses beside its names. */
  const KEYWORDS := OPERATOR_WORDS + LITERAL_WORDS + FUNCTION_WORDS

  predicate Lowercase(word: string) {
    word != "" && forall k | 0 <= k < |word| :: 'a' <= word[k] <= 'z' || word[k] == '/'
  }

  lemma LowercaseIsWord(word: string)
    requires Lowercase(word)
    ensures WordText(word)
  {
  }

  lemma OperatorWords()
    ensures forall word | word in OPERATOR_WORDS + LITERAL_WORDS :: Lowercase(word)
  {
  }

  lemma FunctionWords()
    ensures forall word | word in FUNCTION_WORDS :: Lowercase(word)
  {
  }

  lemma KeywordsAreWords()
    ensures forall word | word in KEYWORDS :: WordText(word)
  {
    hide Lowercase, WordText;
    OperatorWords();
    FunctionWords();
    forall word | word in KEYWORDS ensures WordText(word) {
      LowercaseIsWord(word);
    }
  }

  predicate AllSpellable(num: Numbers, ts: seq<Token>) {
    forall k | 0 <= k < |ts| :: Spellable(num, ts[k])
  }

  lemma JoinedSpellable(num: Numbers, a: seq<Token>, t: Token, b: seq<Token>)
    requires AllSpellable(num, a) && Spellable(num, t) && AllSpellable(num, b)
    ensures AllSpellable(num, a + [t] + b)
  {
    hide Spellable;
  }

  lemma {:induction false} SpelledIsSpellable(num: Numbers, p: Predicate)
    requires Spelled(num, p) && forall word | word in KEYWORDS :: num(word).None?
    ensures AllSpellable(num, PrintOr(p)) && AllSpellable(num, PrintAnd(p)) && AllSpellable(num, PrintPrimary(p))
    decreases p
  {
    hide Spellable, AllSpellable, FunctionText, OperatorText, OperandToken, OperandSpelled, KEYWORDS;
    Connectives(num);
    match p
    case Or(left, right) =>
      SpelledIsSpellable(num, left);
      SpelledIsSpellable(num, right);
      JoinedSpellable(num, PrintOr(left), Identifier("or"), PrintAnd(right));
      InParentheses(num, PrintOr(p));
    case And(left, right) =>
      SpelledIsSpellable(num, left);
      SpelledIsSpellable(num, right);
      JoinedSpellable(num, PrintAnd(left), Identifier("and"), PrintPrimary(right));
      assert PrintOr(p) == PrintAnd(p);
      InParentheses(num, PrintOr(p));
    case Compare(field, op, operand) => CompareSpellable(num, field, op, operand);
    case Call(fn, first, second) => CallSpellable(num, fn, first, second);
    case Lambda(all, variable, body) =>
      SpelledIsSpellable(num, body);
      LambdaSpellable(num, all, variable, PrintOr(body));
      assert PrintOr(p) == PrintAnd(p) == PrintPrimary(p);
  }

  lemma Connectives(num: Numbers)
    requires forall word | word in KEYWORDS :: num(word).None?
    ensures Spellable(num, Identifier("or")) && Spellable(num, Identifier("and"))
  {
    KeywordTokens(num);
    assert "or" in KEYWORDS && "and" in KEYWORDS;
  }

  lemma InParentheses(num: Numbers, ts: seq<Token>)
    requires AllSpellable(num, ts)
    ensures AllSpellable(num, [LeftParen] + ts + [RightParen])
  {
    hide Spellable;
    MarksAreSpellable(num);
  }

  lemma CompareSpellable(num: Numbers, field: string, op: Operator, operand: Operand)
    requires Spelled(num, Compare(field, op, operand)) && forall word | word in KEYWORDS :: num(word).None?
    ensures AllSpellable(num, PrintPrimary(Compare(field, op, operand)))
  {
    hide Spellable, OperandToken, OperandSpelled, OperatorText;
    KeywordTokens(num);
    OperatorIsKeyword(op);
    OperandIsSpellable(num, operand);
  }

  lemma CallSpellable(num: Numbers, fn: Function, first: Operand, second: Operand)
    requires Spelled(num, Call(fn, first, second)) && forall word | word in KEYWORDS :: num(word).None?
    ensures AllSpellable(num, PrintPrimary(Call(fn, first, second)))
  {
    hide Spellable, OperandToken, OperandSpelled, FunctionText;
    KeywordTokens(num);
    MarksAreSpellable(num);
    FunctionIsKeyword(fn);
    OperandIsSpellable(num, first);
    OperandIsSpellable(num, second);
  }

  lemma LambdaSpellable(num: Numbers, all: bool, variable: string, body: seq<Token>)
    requires Spellable(num, Identifier(variable)) && AllSpellable(num, body)
    requires forall word | word in KEYWORDS :: num(word).None?
    ensures var name := if all then "tags/all" else "tags/any";
            AllSpellable(num, [Identifier(name), LeftParen, Identifier(variable), Colon] + body + [RightParen])
  {
    hide Spellable;
    KeywordTokens(num);
    MarksAreSpellable(num);
  }

  lemma KeywordTokens(num: Numbers)
    requires forall word | word in KEYWORDS :: num(word).None?
    ensures forall word | word in KEYWORDS :: Spellable(num, Identifier(word))
  {
    KeywordsAreWords();
  }

  lemma OperatorIsKeyword(op: Operator)
    ensures OperatorText(op) in KEYWORDS
  {
  }

  lemma FunctionIsKeyword(fn: Function)
    ensures FunctionText(fn) in KEYWORDS
  {
  }

  lemma OperandIsSpellable(num: Numbers, operand: Operand)
    requires OperandSpelled(num, operand) && forall word | word in KEYWORDS :: num(word).None?
    ensures Spellable(num, OperandToken(operand))
  {
    KeywordTokens(num);
  }

  /** WHAT IS ACCEPTED CAN BE PRINTED AND READ BACK: any accepted filter, printed with any white space,
      is accepted under the same contract and read as the same filter, as long as no keyword is a number. */
  lemma AcceptedRoundTrip(num: Numbers, source: string, contract: Contract, gaps: seq<string>)
    requires FilterOf(num, source, contract).Ok? && FilterOf(num, source, contract).value.Some?
    requires forall word | word in KEYWORDS :: num(word).None?
    requires Gaps(PrintOr(FilterOf(num, source, contract).value.value), gaps)
    ensures var p := FilterOf(num, source, contract).value.value;
            FilterOf(num, Render(PrintOr(p), gaps), contract) == Ok(Some(p))
  {
    hide FilterOf, PrintOr, Render, Admits, Spelled, Gaps, WellFormed, Spellable;
    var p := FilterOf(num, source, contract).value.value;
    AcceptedIsAdmitted(num, source, contract);
    SpelledIsSpellable(num, p);
    FilterRoundTrip(num, p, gaps, contract);
  }

  // --- What an admitted filter can see ---

  /** Two resources a contract cannot tell apart: every listed field has the same value in both, or
      is missing in both. */
  ghost predicate Indistinguishable(contract: map<string, Rule>, a: Value, b: Value) {
    forall name | ToLower(name) in contract :: FieldValue(a, name) == FieldValue(b, name)
  }

  lemma {:induction false} AdmittedReadsListedFields(num: Numbers, p: Predicate, contract: map<string, Rule>,
                                                     a: Value, b: Value)
    requires Admits(Some(contract), p) && Indistinguishable(contract, a, b)
    ensures Meaning(num, p, a) == Meaning(num, p, b)
    decreases p
  {
    hide FieldValue, CompareValues, CallValues;
    match p
    case Or(left, right) =>
      AdmittedReadsListedFields(num, left, contract, a, b);
      AdmittedReadsListedFields(num, right, contract, a, b);
    case And(left, right) =>
      AdmittedReadsListedFields(num, left, contract, a, b);
      AdmittedReadsListedFields(num, right, contract, a, b);
    case Compare(field, _, _) =>
      assert FieldValue(a, field) == FieldValue(b, field);
    case Call(_, first, second) =>
      var name := if first.Field? then first.name else second.name;
      assert FieldValue(a, name) == FieldValue(b, name);
    case Lambda(_, _, _) =>
      FoldedWords();
      assert FieldValue(a, "tags") == FieldValue(b, "tags");
  }

  /** A FILTER ACCEPTED UNDER A CONTRACT SEES ONLY LISTED FIELDS: it cannot tell apart two resources
      that agree on those, whether it holds, does not hold or fails. */
  lemma AcceptedReadsListedFields(num: Numbers, source: string, contract: map<string, Rule>, a: Value, b: Value)
    requires FilterOf(num, source, Some(contract)).Ok? && FilterOf(num, source, Some(contract)).value.Some?
    requires Indistinguishable(contract, a, b)
    ensures var p := FilterOf(num, source, Some(contract)).value.value; Meaning(num, p, a) == Meaning(num, p, b)
  {
    AcceptedIsAdmitted(num, source, Some(contract));
    AdmittedReadsListedFields(num, FilterOf(num, source, Some(contract)).value.value, contract, a, b);
  }
}
