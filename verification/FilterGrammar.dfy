/** The `$filter` grammar as a relation of tokens to filters, apart from any parser: which token sequences
    spell which filter, with redundant parentheses and with keywords in any case. The parser accepts exactly
    the spellings of the filters its contract admits. */
module FilterGrammar {
  import opened Wrappers
  import opened GoStrings
  import opened Filter
  import opened FilterParser

  // --- Spelling ---

  /** A disjunction of conjunctions, the last of which is on its right. */
  ghost predicate SpellsOr(ts: seq<Token>, p: Predicate)
    decreases |ts|, 4
  {
    SpellsAnd(ts, p) || (p.Or? && exists i | 0 <= i < |ts| :: OrAt(ts, i, p.left, p.right))
  }

  ghost predicate OrAt(ts: seq<Token>, i: int, left: Predicate, right: Predicate)
    requires 0 <= i < |ts|
    decreases |ts|, 3
  {
    Keyword(ts[i], "or") && SpellsOr(ts[..i], left) && SpellsAnd(ts[i + 1..], right)
  }

  ghost predicate SpellsAnd(ts: seq<Token>, p: Predicate)
    decreases |ts|, 2
  {
    SpellsPrimary(ts, p) || (p.And? && exists i | 0 <= i < |ts| :: AndAt(ts, i, p.left, p.right))
  }

  ghost predicate AndAt(ts: seq<Token>, i: int, left: Predicate, right: Predicate)
    requires 0 <= i < |ts|
    decreases |ts|, 1
  {
    Keyword(ts[i], "and") && SpellsAnd(ts[..i], left) && SpellsPrimary(ts[i + 1..], right)
  }

  ghost predicate SpellsPrimary(ts: seq<Token>, p: Predicate)
    decreases |ts|, 0
  {
    || (|ts| >= 2 && ts[0] == LeftParen && ts[|ts| - 1] == RightParen && SpellsOr(ts[1..|ts| - 1], p))
    || SpellsComparison(ts, p)
    || SpellsCall(ts, p)
    || (|ts| >= 5 && LambdaHead(ts, p) && ts[|ts| - 1] == RightParen && SpellsOr(ts[4..|ts| - 1], p.body))
  }

  /** A name, an operator and a value. */
  predicate SpellsComparison(ts: seq<Token>, p: Predicate) {
    && p.Compare? && |ts| == 3 && ts[0] == Identifier(p.field)
    && ts[1].Identifier? && OperatorOf(ToLower(ts[1].text)) == Some(p.op)
    && OperandOf(ts[2]) == Some(p.operand)
  }

  /** A function's name and its two arguments in parentheses. */
  predicate SpellsCall(ts: seq<Token>, p: Predicate) {
    && p.Call? && |ts| == 6 && ts[0].Identifier? && FunctionOf(ToLower(ts[0].text)) == Some(p.fn)
    && ts[1] == LeftParen && OperandOf(ts[2]) == Some(p.first)
    && ts[3] == Comma && OperandOf(ts[4]) == Some(p.second) && ts[5] == RightParen
  }

  /** `tags/any(x:` or `tags/all(x:`. */
  predicate LambdaHead(ts: seq<Token>, p: Predicate) {
    && p.Lambda? && |ts| >= 4
    && ts[0].Identifier? && ToLower(ts[0].text) == (if p.all then "tags/all" else "tags/any")
    && ts[1] == LeftParen && ts[2] == Identifier(p.variable) && ts[3] == Colon
  }

  /** What a contract admits: outside tag lambdas, comparisons of a listed field with a literal under
      an allowed operator, and allowed functions of one listed field and one literal. */
  predicate Admits(contract: Contract, p: Predicate) {
    contract.Some? ==>
      match p
      case Or(left, right) => Admits(contract, left) && Admits(contract, right)
      case And(left, right) => Admits(contract, left) && Admits(contract, right)
      case Compare(field, op, operand) =>
        && !operand.Field?
        && ToLower(field) in contract.value && op in contract.value[ToLower(field)].operators
      case Call(fn, first, second) =>
        && first.Field? != second.Field?
        && var field := ToLower(if first.Field? then first.name else second.name);
           field in contract.value && fn in contract.value[field].functions
      case Lambda(all, _, _) =>
        && "tags" in contract.value && (if all then All else Any) in contract.value["tags"].functions
  }

  // --- Tokens ---

  lemma FoldedWords()
    ensures ToLower("tags") == "tags" && ToLower("or") == "or" && ToLower("and") == "and"
    ensures ToLower("true") == "true" && ToLower("false") == "false" && ToLower("null") == "null"
    ensures ToLower("tags/all") == "tags/all" && ToLower("tags/any") == "tags/any"
  {
    assert ToLower("tags") == "tags" && ToLower("or") == "or" && ToLower("and") == "and";
    assert ToLower("true") == "true" && ToLower("false") == "false" && ToLower("null") == "null";
    assert ToLower("tags/all") == "tags/all" && ToLower("tags/any") == "tags/any";
  }

  /** Tokens that may follow a filter: the end, or anything that cannot continue it. */
  predicate Follows(ts: seq<Token>, word: string) {
    Terminated(ts) && !Keyword(ts[0], word)
  }

  lemma TerminatedAfter(some: seq<Token>, rest: seq<Token>)
    requires EOF !in some && Terminated(rest)
    ensures Terminated(some + rest) && (some + rest)[|some|..] == rest
  {
    var ts := some + rest;
    forall k | 0 <= k < |ts| ensures ts[k] == EOF <==> k == |ts| - 1 {
      if k < |some| {
        assert ts[k] in some;
      } else {
        assert ts[k] == rest[k - |some|];
      }
    }
  }

  lemma Inside(ts: seq<Token>, n: nat)
    requires n < |ts|
    ensures ts == ts[..n] + ts[n..|ts| - 1] + [ts[|ts| - 1]]
  {
  }

  /** An outcome of parsing: the filter and what follows it if the contract admits it, else an error. */
  ghost predicate Reads(r: Parsed, admitted: bool, expected: Parsed) {
    if admitted then r == expected else r.Err?
  }

  // --- The parser reads every spelling ---

  lemma ParseAndStep(ts: seq<Token>, contract: Contract)
    requires Terminated(ts)
    ensures var left := ParsePrimary(ts, contract);
            if left.Err? then ParseAnd(ts, contract).Err?
            else ParseAnd(ts, contract) == AndTail(left.value.0, left.value.1, contract)
  {
  }

  lemma ParseOrStep(ts: seq<Token>, contract: Contract)
    requires Terminated(ts)
    ensures var left := ParseAnd(ts, contract);
            if left.Err? then ParseOr(ts, contract).Err?
            else ParseOr(ts, contract) == OrTail(left.value.0, left.value.1, contract)
  {
    hide ParseAnd, OrTail;
  }

  lemma AdmitsBoth(contract: Contract, left: Predicate, right: Predicate)
    ensures Admits(contract, Or(left, right)) <==> Admits(contract, left) && Admits(contract, right)
    ensures Admits(contract, And(left, right)) <==> Admits(contract, left) && Admits(contract, right)
  {
  }

  lemma AndTailStops(left: Predicate, ts: seq<Token>, contract: Contract)
    requires Follows(ts, "and")
    ensures AndTail(left, ts, contract) == Ok((left, ts))
  {
  }

  lemma ParenthesisStep(ts: seq<Token>, contract: Contract)
    requires Terminated(ts)
    ensures Terminated([LeftParen] + ts)
    ensures var r := ParsePrimary([LeftParen] + ts, contract);
            var inner := ParseOr(ts, contract);
            if inner.Ok? && inner.value.1[0] == RightParen then r == Ok((inner.value.0, inner.value.1[1..])) else r.Err?
  {
    hide ParseOr;
    TerminatedAfter([LeftParen], ts);
    assert ([LeftParen] + ts)[1..] == ts;
  }

  lemma FunctionStep(name: string, ts: seq<Token>, contract: Contract)
    requires Terminated(ts)
    ensures Terminated([Identifier(name), LeftParen] + ts)
    ensures ParsePrimary([Identifier(name), LeftParen] + ts, contract) == ParseFunction(name, ts, contract)
  {
    hide ParseFunction;
    TerminatedAfter([Identifier(name), LeftParen], ts);
    assert ([Identifier(name), LeftParen] + ts)[2..] == ts;
  }

  lemma ComparisonStep(field: string, ts: seq<Token>, contract: Contract)
    requires Terminated(ts) && ts[0].Identifier?
    ensures Terminated([Identifier(field)] + ts)
    ensures ParsePrimary([Identifier(field)] + ts, contract) == ParseComparison(field, ts, contract)
  {
    hide ParseComparison;
    TerminatedAfter([Identifier(field)], ts);
    assert ([Identifier(field)] + ts)[1..] == ts;
  }

  lemma ComparisonReads(ts: seq<Token>, p: Predicate, rest: seq<Token>, contract: Contract)
    requires SpellsComparison(ts, p) && Terminated(rest)
    ensures Terminated(ts + rest)
    ensures Reads(ParsePrimary(ts + rest, contract), Admits(contract, p), Ok((p, rest)))
  {
    hide ParsePrimary, ToLower, OperatorOf;
    var after := [ts[1], ts[2]] + rest;
    TerminatedAfter([ts[1], ts[2]], rest);
    assert ts + rest == [Identifier(p.field)] + after && after[2..] == rest;
    ComparisonStep(p.field, after, contract);
  }

  lemma CallReads(ts: seq<Token>, p: Predicate, rest: seq<Token>, contract: Contract)
    requires SpellsCall(ts, p) && Terminated(rest)
    ensures Terminated(ts + rest)
    ensures Reads(ParsePrimary(ts + rest, contract), Admits(contract, p), Ok((p, rest)))
  {
    hide ParsePrimary, ParseFunction, OperandOf, FunctionOf, ToLower;
    var some := [ts[2], Comma, ts[4], RightParen];
    OperandIsNoEnd(ts[2]);
    OperandIsNoEnd(ts[4]);
    TerminatedAfter(some, rest);
    assert ts + rest == [Identifier(ts[0].text), LeftParen] + (some + rest) && (some + rest)[4..] == rest;
    FunctionStep(ts[0].text, some + rest, contract);
    CallStep(ts[0].text, p.fn, some + rest, contract);
  }

  lemma OperandIsNoEnd(t: Token)
    requires OperandOf(t).Some?
    ensures t != EOF
  {
  }

  /** A function's name in any case is no lambda's. */
  lemma CallStep(name: string, fn: Function, ts: seq<Token>, contract: Contract)
    requires Terminated(ts) && FunctionOf(ToLower(name)) == Some(fn)
    ensures ParseFunction(name, ts, contract) == ParseCall(fn, ts, contract)
  {
    hide ParseCall, ToLower;
  }

  lemma LambdaStep(name: string, all: bool, ts: seq<Token>, contract: Contract)
    requires Terminated(ts) && ToLower(name) == (if all then "tags/all" else "tags/any")
    ensures ParseFunction(name, ts, contract) == ParseLambda(all, ts, contract)
  {
    hide ParseLambda, ToLower;
    assert "tags/all"[6] != "tags/any"[6];
  }

  lemma {:induction false} PrimaryReads(ts: seq<Token>, p: Predicate, rest: seq<Token>, contract: Contract)
    requires SpellsPrimary(ts, p) && Terminated(rest)
    ensures Terminated(ts + rest)
    ensures Reads(ParsePrimary(ts + rest, contract), Admits(contract, p), Ok((p, rest)))
    decreases |ts|, 0
  {
    hide ParsePrimary, SpellsOr, SpellsComparison, SpellsCall, Admits, Terminated, Reads, ParseOr, ToLower;
    TerminatedAfter([RightParen], rest);
    var closed := [RightParen] + rest;
    if SpellsComparison(ts, p) {
      ComparisonReads(ts, p, rest, contract);
    } else if SpellsCall(ts, p) {
      CallReads(ts, p, rest, contract);
    } else if |ts| >= 5 && LambdaHead(ts, p) && ts[|ts| - 1] == RightParen && SpellsOr(ts[4..|ts| - 1], p.body) {
      var inner := ts[4..|ts| - 1];
      ClosedFollows(rest);
      OrReads(inner, p.body, closed, None);
      Inside(ts, 4);
      assert ts + rest == ts[..4] + (inner + closed);
      LambdaReads(ts[..4], p, inner, rest, contract);
    } else {
      var inner := ts[1..|ts| - 1];
      ClosedFollows(rest);
      OrReads(inner, p, closed, contract);
      Inside(ts, 1);
      assert ts + rest == [LeftParen] + (inner + closed);
      ParenthesisReads(p, inner, rest, contract);
    }
  }

  lemma ClosedFollows(rest: seq<Token>)
    requires Terminated(rest)
    ensures Follows([RightParen] + rest, "and") && Follows([RightParen] + rest, "or")
  {
    TerminatedAfter([RightParen], rest);
  }

  lemma ParenthesisReads(p: Predicate, inner: seq<Token>, rest: seq<Token>, contract: Contract)
    requires Terminated(rest) && Terminated(inner + ([RightParen] + rest)) && Follows([RightParen] + rest, "or")
    requires Reads(ParseOr(inner + ([RightParen] + rest), contract), Admits(contract, p),
                   OrTail(p, [RightParen] + rest, contract))
    ensures Terminated([LeftParen] + (inner + ([RightParen] + rest)))
    ensures Reads(ParsePrimary([LeftParen] + (inner + ([RightParen] + rest)), contract), Admits(contract, p),
                  Ok((p, rest)))
  {
    hide ParsePrimary, ParseOr, OrTail, Admits;
    OrTailStops(p, [RightParen] + rest, contract);
    assert ([RightParen] + rest)[1..] == rest;
    ParenthesisStep(inner + ([RightParen] + rest), contract);
  }

  lemma OrTailStops(left: Predicate, ts: seq<Token>, contract: Contract)
    requires Follows(ts, "or")
    ensures OrTail(left, ts, contract) == Ok((left, ts))
  {
  }

  lemma LambdaReads(head: seq<Token>, p: Predicate, inner: seq<Token>, rest: seq<Token>, contract: Contract)
    requires |head| == 4 && LambdaHead(head, p)
    requires Terminated(rest) && Terminated(inner + ([RightParen] + rest)) && Follows([RightParen] + rest, "or")
    requires Reads(ParseOr(inner + ([RightParen] + rest), None), Admits(None, p.body),
                   OrTail(p.body, [RightParen] + rest, None))
    ensures Terminated(head + (inner + ([RightParen] + rest)))
    ensures Reads(ParsePrimary(head + (inner + ([RightParen] + rest)), contract), Admits(contract, p), Ok((p, rest)))
  {
    hide ParsePrimary, ParseFunction, ParseOr, OrTail, ParseLambda, ToLower;
    var closed := [RightParen] + rest;
    var after := [Identifier(p.variable), Colon] + (inner + closed);
    TerminatedAfter([Identifier(p.variable), Colon], inner + closed);
    assert head + (inner + closed) == [Identifier(head[0].text), LeftParen] + after;
    assert after[2..] == inner + closed && closed[1..] == rest;
    FunctionStep(head[0].text, after, contract);
    LambdaStep(head[0].text, p.all, after, contract);
    OrTailStops(p.body, closed, None);
    LambdaCases(p.all, after, contract);
    TagsAreTags();
  }

  lemma TagsAreTags()
    ensures ToLower("tags") == "tags"
  {
  }

  /** Conjunctions: reading one leaves the parser where its left-to-right loop continues. */
  lemma {:induction false} AndReads(ts: seq<Token>, p: Predicate, rest: seq<Token>, contract: Contract)
    requires SpellsAnd(ts, p) && Terminated(rest)
    ensures Terminated(ts + rest)
    ensures Reads(ParseAnd(ts + rest, contract), Admits(contract, p), AndTail(p, rest, contract))
    decreases |ts|, 1
  {
    hide ParseAnd, AndTail, ParsePrimary, SpellsPrimary, Terminated, Admits, Reads, Keyword;
    if SpellsPrimary(ts, p) {
      PrimaryReads(ts, p, rest, contract);
      SinglePrimary(p, ts + rest, rest, contract);
    } else {
      var i :| 0 <= i < |ts| && AndAt(ts, i, p.left, p.right);
      var t, lefts, rights := ts[i], ts[..i], ts[i + 1..];
      PrimaryReads(rights, p.right, rest, contract);
      KeywordThen(t, "and", rights + rest);
      AndReads(lefts, p.left, [t] + (rights + rest), contract);
      assert ts + rest == lefts + ([t] + (rights + rest));
      AndToTailStep(p.left, p.right, t, lefts, rights, rest, contract);
    }
  }

  lemma KeywordThen(t: Token, word: string, more: seq<Token>)
    requires Keyword(t, word) && Terminated(more)
    ensures Terminated([t] + more)
  {
    TerminatedAfter([t], more);
  }

  lemma SinglePrimary(p: Predicate, ts: seq<Token>, rest: seq<Token>, contract: Contract)
    requires Terminated(ts) && Terminated(rest)
    requires Reads(ParsePrimary(ts, contract), Admits(contract, p), Ok((p, rest)))
    ensures Reads(ParseAnd(ts, contract), Admits(contract, p), AndTail(p, rest, contract))
  {
    hide ParseAnd, AndTail, ParsePrimary, Admits, Terminated;
    ParseAndStep(ts, contract);
  }

  /** From a conjunction's left side and its right side to the whole. */
  lemma AndToTailStep(left: Predicate, right: Predicate, t: Token, lefts: seq<Token>, rights: seq<Token>,
                      rest: seq<Token>, contract: Contract)
    requires Keyword(t, "and") && Terminated(rest) && Terminated(rights + rest) && Terminated([t] + (rights + rest))
    requires Terminated(lefts + ([t] + (rights + rest)))
    requires Reads(ParseAnd(lefts + ([t] + (rights + rest)), contract), Admits(contract, left),
                   AndTail(left, [t] + (rights + rest), contract))
    requires Reads(ParsePrimary(rights + rest, contract), Admits(contract, right), Ok((right, rest)))
    ensures Reads(ParseAnd(lefts + ([t] + (rights + rest)), contract), Admits(contract, And(left, right)),
                  AndTail(And(left, right), rest, contract))
  {
    hide ParseAnd, AndTail, ParsePrimary, Admits, Terminated, Keyword;
    AndTailStep(left, t, rights + rest, contract);
    AdmitsBoth(contract, left, right);
  }

  lemma AndTailStep(left: Predicate, t: Token, ts: seq<Token>, contract: Contract)
    requires Keyword(t, "and") && Terminated(ts) && Terminated([t] + ts)
    ensures var r := AndTail(left, [t] + ts, contract);
            var right := ParsePrimary(ts, contract);
            if right.Err? then r.Err? else r == AndTail(And(left, right.value.0), right.value.1, contract)
  {
    hide Keyword, ParsePrimary;
    assert ([t] + ts)[1..] == ts;
  }

  lemma OrTailStep(left: Predicate, t: Token, ts: seq<Token>, contract: Contract)
    requires Keyword(t, "or") && Terminated(ts) && Terminated([t] + ts)
    ensures var r := OrTail(left, [t] + ts, contract);
            var right := ParseAnd(ts, contract);
            if right.Err? then r.Err? else r == OrTail(Or(left, right.value.0), right.value.1, contract)
  {
    hide Keyword, ParseAnd;
    assert ([t] + ts)[1..] == ts;
  }

  /** Disjunctions likewise, when no `and` follows. */
  lemma {:induction false} OrReads(ts: seq<Token>, p: Predicate, rest: seq<Token>, contract: Contract)
    requires SpellsOr(ts, p) && Follows(rest, "and")
    ensures Terminated(ts + rest)
    ensures Reads(ParseOr(ts + rest, contract), Admits(contract, p), OrTail(p, rest, contract))
    decreases |ts|, 2
  {
    hide ParseOr, OrTail, ParseAnd, AndTail, SpellsAnd, Terminated, Admits, Reads, Keyword;
    if SpellsAnd(ts, p) {
      AndReads(ts, p, rest, contract);
      SingleToTail(p, ts + rest, rest, contract);
    } else {
      var i :| 0 <= i < |ts| && OrAt(ts, i, p.left, p.right);
      var t, lefts, rights := ts[i], ts[..i], ts[i + 1..];
      AndReads(rights, p.right, rest, contract);
      AfterOr(t, rights + rest);
      OrReads(lefts, p.left, [t] + (rights + rest), contract);
      assert ts + rest == lefts + ([t] + (rights + rest));
      OrToTailStep(p.left, p.right, t, lefts, rights, rest, contract);
    }
  }

  /** An `or` may follow a conjunction. */
  lemma AfterOr(t: Token, more: seq<Token>)
    requires Keyword(t, "or") && Terminated(more)
    ensures Follows([t] + more, "and")
  {
    assert ToLower("or")[0] == 'o' && ToLower("and")[0] == 'a';
    TerminatedAfter([t], more);
  }

  lemma SingleToTail(p: Predicate, ts: seq<Token>, rest: seq<Token>, contract: Contract)
    requires Terminated(ts) && Follows(rest, "and")
    requires Reads(ParseAnd(ts, contract), Admits(contract, p), AndTail(p, rest, contract))
    ensures Reads(ParseOr(ts, contract), Admits(contract, p), OrTail(p, rest, contract))
  {
    hide ParseAnd, AndTail, OrTail, ParseOr, Admits;
    AndTailStops(p, rest, contract);
    ParseOrStep(ts, contract);
  }

  /** From a disjunction's left side and its right side to the whole. */
  lemma OrToTailStep(left: Predicate, right: Predicate, t: Token, lefts: seq<Token>, rights: seq<Token>,
                     rest: seq<Token>, contract: Contract)
    requires Keyword(t, "or") && Follows(rest, "and") && Terminated(rights + rest) && Terminated([t] + (rights + rest))
    requires Terminated(lefts + ([t] + (rights + rest)))
    requires Reads(ParseOr(lefts + ([t] + (rights + rest)), contract), Admits(contract, left),
                   OrTail(left, [t] + (rights + rest), contract))
    requires Reads(ParseAnd(rights + rest, contract), Admits(contract, right), AndTail(right, rest, contract))
    ensures Reads(ParseOr(lefts + ([t] + (rights + rest)), contract), Admits(contract, Or(left, right)),
                  OrTail(Or(left, right), rest, contract))
  {
    hide ParseAnd, AndTail, OrTail, ParseOr, Admits, Terminated, Keyword;
    AndTailStops(right, rest, contract);
    OrTailStep(left, t, rights + rest, contract);
    AdmitsBoth(contract, left, right);
  }

  /** EVERY SPELLING IS READ, in front of anything that cannot continue it: as the filter it spells if the
      contract admits that, and with an error if not. */
  lemma SpellingIsRead(ts: seq<Token>, p: Predicate, rest: seq<Token>, contract: Contract)
    requires SpellsOr(ts, p) && Follows(rest, "and") && Follows(rest, "or")
    ensures Terminated(ts + rest)
    ensures Reads(ParseOr(ts + rest, contract), Admits(contract, p), Ok((p, rest)))
  {
    hide ParseOr, OrTail, SpellsOr, Admits;
    OrReads(ts, p, rest, contract);
    OrTailStops(p, rest, contract);
  }

  // --- What the parser reads is a spelling ---

  /** The tokens before the ones left. */
  function Taken(ts: seq<Token>, rest: seq<Token>): seq<Token> {
    if |rest| <= |ts| then ts[..|ts| - |rest|] else []
  }

  /** What an outcome took, after the tokens before it, spells what it read. */
  ghost predicate TookOr(before: seq<Token>, ts: seq<Token>, r: Parsed) {
    r.Ok? ==> SpellsOr(before + Taken(ts, r.value.1), r.value.0)
  }

  ghost predicate TookAnd(before: seq<Token>, ts: seq<Token>, r: Parsed) {
    r.Ok? ==> SpellsAnd(before + Taken(ts, r.value.1), r.value.0)
  }

  ghost predicate TookPrimary(before: seq<Token>, ts: seq<Token>, r: Parsed) {
    r.Ok? ==> SpellsPrimary(before + Taken(ts, r.value.1), r.value.0)
  }

  lemma OrAlone(ts: seq<Token>, r: Parsed)
    requires TookOr([], ts, r) && r.Ok?
    ensures SpellsOr(Taken(ts, r.value.1), r.value.0)
  {
    hide SpellsOr;
    assert [] + Taken(ts, r.value.1) == Taken(ts, r.value.1);
  }

  lemma AndAlone(ts: seq<Token>, r: Parsed)
    requires TookAnd([], ts, r) && r.Ok?
    ensures SpellsAnd(Taken(ts, r.value.1), r.value.0)
  {
    hide SpellsAnd;
    assert [] + Taken(ts, r.value.1) == Taken(ts, r.value.1);
  }

  lemma PrimaryAlone(ts: seq<Token>, r: Parsed)
    requires TookPrimary([], ts, r) && r.Ok?
    ensures SpellsPrimary(Taken(ts, r.value.1), r.value.0)
  {
    hide SpellsPrimary;
    assert [] + Taken(ts, r.value.1) == Taken(ts, r.value.1);
  }

  lemma TakenNothing(ts: seq<Token>)
    ensures Taken(ts, ts) == []
  {
  }

  /** Taking some and then more is taking all of them. */
  lemma TakenTwice(ts: seq<Token>, mid: seq<Token>, rest: seq<Token>)
    requires LeftOver(mid, ts) && LeftOver(rest, mid)
    ensures Taken(ts, rest) == Taken(ts, mid) + Taken(mid, rest)
  {
    LeftOverIsSlice(mid, ts);
    LeftOverIsSlice(rest, mid);
  }

  /** Taking the first few. */
  lemma TakenFirst(ts: seq<Token>, n: nat, rest: seq<Token>)
    requires n <= |ts| && LeftOver(rest, ts[n..])
    ensures Taken(ts, rest) == ts[..n] + Taken(ts[n..], rest)
  {
    LeftOverIsSlice(rest, ts[n..]);
  }

  /** Taking one more. */
  lemma TakenNext(ts: seq<Token>, rest: seq<Token>)
    requires LeftOver(rest, ts) && rest != []
    ensures Taken(ts, rest[1..]) == Taken(ts, rest) + [rest[0]]
  {
    LeftOverIsSlice(rest, ts);
  }

  lemma {:induction false} OrTook(ts: seq<Token>, contract: Contract)
    requires Terminated(ts)
    ensures TookOr([], ts, ParseOr(ts, contract))
    decreases |ts|, 4
  {
    hide SpellsOr, SpellsAnd, Terminated, OrTail, ParseAnd, ParseOr;
    AndTook(ts, contract);
    ParseOrStep(ts, contract);
    var left := ParseAnd(ts, contract);
    if left.Ok? {
      AndIsOr([] + Taken(ts, left.value.1), left.value.0);
      OrTailTook([] + Taken(ts, left.value.1), left.value.0, left.value.1, contract);
      OrAfter(ts, left.value.1, OrTail(left.value.0, left.value.1, contract));
    }
  }

  lemma AndIsOr(ts: seq<Token>, p: Predicate)
    requires SpellsAnd(ts, p)
    ensures SpellsOr(ts, p)
  {
    hide SpellsAnd;
  }

  lemma PrimaryIsAnd(ts: seq<Token>, p: Predicate)
    requires SpellsPrimary(ts, p)
    ensures SpellsAnd(ts, p)
  {
    hide SpellsPrimary;
  }

  /** An outcome on what is left, after what was taken, is one on all. */
  lemma OrAfter(ts: seq<Token>, mid: seq<Token>, r: Parsed)
    requires LeftOver(mid, ts) && (r.Ok? ==> LeftOver(r.value.1, mid))
    requires TookOr([] + Taken(ts, mid), mid, r)
    ensures TookOr([], ts, r)
  {
    hide SpellsOr;
    if r.Ok? {
      TakenTwice(ts, mid, r.value.1);
      assert [] + Taken(ts, r.value.1) == ([] + Taken(ts, mid)) + Taken(mid, r.value.1);
    }
  }

  lemma AndAfter(ts: seq<Token>, mid: seq<Token>, r: Parsed)
    requires LeftOver(mid, ts) && (r.Ok? ==> LeftOver(r.value.1, mid))
    requires TookAnd([] + Taken(ts, mid), mid, r)
    ensures TookAnd([], ts, r)
  {
    hide SpellsAnd;
    if r.Ok? {
      TakenTwice(ts, mid, r.value.1);
      assert [] + Taken(ts, r.value.1) == ([] + Taken(ts, mid)) + Taken(mid, r.value.1);
    }
  }

  lemma {:induction false} OrTailTook(before: seq<Token>, left: Predicate, ts: seq<Token>, contract: Contract)
    requires Terminated(ts) && SpellsOr(before, left)
    ensures TookOr(before, ts, OrTail(left, ts, contract))
    decreases |ts|, 5
  {
    hide SpellsOr, SpellsAnd, ParseAnd, Keyword;
    if !Keyword(ts[0], "or") {
      TakenNothing(ts);
      assert before + [] == before;
    } else {
      KeywordIsNoEnd(ts[0], "or");
      assert ts[..1] == [ts[0]];
      AndTook(ts[1..], contract);
      var right := ParseAnd(ts[1..], contract);
      if right.Ok? {
        var mid := before + ts[..1] + Taken(ts[1..], right.value.1);
        var taken := Taken(ts[1..], right.value.1);
        AndAlone(ts[1..], right);
        OrJoins(before, ts[0], taken, left, right.value.0);
        OrTailTook(mid, Or(left, right.value.0), right.value.1, contract);
        var r := OrTail(Or(left, right.value.0), right.value.1, contract);
        if r.Ok? {
          TakenTwice(ts[1..], right.value.1, r.value.1);
          LeftOfRest(r, right.value.1, ts[1..]);
          TakenFirst(ts, 1, r.value.1);
          assert before + Taken(ts, r.value.1) == mid + Taken(right.value.1, r.value.1);
        }
      }
    }
  }

  lemma KeywordIsNoEnd(t: Token, word: string)
    requires Keyword(t, word)
    ensures t != EOF
  {
  }

  lemma OrJoins(lefts: seq<Token>, t: Token, rights: seq<Token>, left: Predicate, right: Predicate)
    requires SpellsOr(lefts, left) && Keyword(t, "or") && SpellsAnd(rights, right)
    ensures SpellsOr(lefts + [t] + rights, Or(left, right))
  {
    hide SpellsAnd, Keyword;
    var ts := lefts + [t] + rights;
    assert ts[..|lefts|] == lefts && ts[|lefts|] == t && ts[|lefts| + 1..] == rights;
    assert OrAt(ts, |lefts|, left, right);
  }

  lemma {:induction false} AndTook(ts: seq<Token>, contract: Contract)
    requires Terminated(ts)
    ensures TookAnd([], ts, ParseAnd(ts, contract))
    decreases |ts|, 2
  {
    hide SpellsAnd, SpellsPrimary, Terminated, AndTail, ParsePrimary, ParseAnd;
    PrimaryTook(ts, contract);
    ParseAndStep(ts, contract);
    var left := ParsePrimary(ts, contract);
    if left.Ok? {
      PrimaryIsAnd([] + Taken(ts, left.value.1), left.value.0);
      AndTailTook([] + Taken(ts, left.value.1), left.value.0, left.value.1, contract);
      AndAfter(ts, left.value.1, AndTail(left.value.0, left.value.1, contract));
    }
  }

  lemma {:induction false} AndTailTook(before: seq<Token>, left: Predicate, ts: seq<Token>, contract: Contract)
    requires Terminated(ts) && SpellsAnd(before, left)
    ensures TookAnd(before, ts, AndTail(left, ts, contract))
    decreases |ts|, 3
  {
    hide SpellsAnd, SpellsPrimary, ParsePrimary, Keyword;
    if !Keyword(ts[0], "and") {
      TakenNothing(ts);
      assert before + [] == before;
    } else {
      KeywordIsNoEnd(ts[0], "and");
      assert ts[..1] == [ts[0]];
      PrimaryTook(ts[1..], contract);
      var right := ParsePrimary(ts[1..], contract);
      if right.Ok? {
        var mid := before + ts[..1] + Taken(ts[1..], right.value.1);
        var taken := Taken(ts[1..], right.value.1);
        PrimaryAlone(ts[1..], right);
        AndJoins(before, ts[0], taken, left, right.value.0);
        AndTailTook(mid, And(left, right.value.0), right.value.1, contract);
        var r := AndTail(And(left, right.value.0), right.value.1, contract);
        if r.Ok? {
          TakenTwice(ts[1..], right.value.1, r.value.1);
          LeftOfRest(r, right.value.1, ts[1..]);
          TakenFirst(ts, 1, r.value.1);
          assert before + Taken(ts, r.value.1) == mid + Taken(right.value.1, r.value.1);
        }
      }
    }
  }

  lemma AndJoins(lefts: seq<Token>, t: Token, rights: seq<Token>, left: Predicate, right: Predicate)
    requires SpellsAnd(lefts, left) && Keyword(t, "and") && SpellsPrimary(rights, right)
    ensures SpellsAnd(lefts + [t] + rights, And(left, right))
  {
    hide SpellsPrimary, Keyword;
    var ts := lefts + [t] + rights;
    assert ts[..|lefts|] == lefts && ts[|lefts|] == t && ts[|lefts| + 1..] == rights;
    assert AndAt(ts, |lefts|, left, right);
  }

  lemma {:induction false} PrimaryTook(ts: seq<Token>, contract: Contract)
    requires Terminated(ts)
    ensures TookPrimary([], ts, ParsePrimary(ts, contract))
    decreases |ts|, 1
  {
    hide SpellsPrimary, SpellsOr, ParseOr, ParseFunction, ParseComparison;
    var r := ParsePrimary(ts, contract);
    if r.Ok? {
      if ts[0] == LeftParen {
        OrTook(ts[1..], contract);
        var inner := ParseOr(ts[1..], contract).value;
        TakenFirst(ts, 1, inner.1);
        Dropped(inner.1, 0, ts[1..]);
        Dropped(ts, 1, ts);
        LeftOfRest(Ok(inner), ts[1..], ts);
        TakenNext(ts, inner.1);
        OrAlone(ts[1..], Ok(inner));
        ParenthesisSpells(Taken(ts[1..], inner.1), inner.0);
        assert [] + Taken(ts, r.value.1) == [LeftParen] + Taken(ts[1..], inner.1) + [RightParen];
      } else if ts[1] == LeftParen {
        FunctionTook(ts[0].text, ts[2..], contract);
        TakenFirst(ts, 2, r.value.1);
        assert [] + Taken(ts, r.value.1) == [Identifier(ts[0].text), LeftParen] + Taken(ts[2..], r.value.1);
      } else {
        ComparisonTook(ts[0].text, ts[1..], contract);
        TakenFirst(ts, 1, r.value.1);
        assert [] + Taken(ts, r.value.1) == [Identifier(ts[0].text)] + Taken(ts[1..], r.value.1);
      }
    }
  }

  lemma ParenthesisSpells(inner: seq<Token>, p: Predicate)
    requires SpellsOr(inner, p)
    ensures SpellsPrimary([LeftParen] + inner + [RightParen], p)
  {
    hide SpellsOr;
    var ts := [LeftParen] + inner + [RightParen];
    assert ts[1..|ts| - 1] == inner;
  }

  lemma ComparisonTook(field: string, ts: seq<Token>, contract: Contract)
    requires Terminated(ts)
    ensures TookPrimary([Identifier(field)], ts, ParseComparison(field, ts, contract))
  {
    hide SpellsOr, OperandOf, OperatorOf, ToLower;
    var r := ParseComparison(field, ts, contract);
    if r.Ok? {
      assert [Identifier(field)] + Taken(ts, r.value.1) == [Identifier(field), ts[0], ts[1]];
      assert SpellsComparison([Identifier(field), ts[0], ts[1]], r.value.0);
    }
  }

  lemma {:induction false} FunctionTook(text: string, ts: seq<Token>, contract: Contract)
    requires Terminated(ts)
    ensures TookPrimary([Identifier(text), LeftParen], ts, ParseFunction(text, ts, contract))
    decreases |ts|, 1
  {
    hide SpellsPrimary, ParseLambda, ParseCall, ToLower;
    var name := ToLower(text);
    if name == "tags/any" || name == "tags/all" {
      LambdaTook(text, name == "tags/all", ts, contract);
    } else if FunctionOf(name).Some? {
      CallTook(text, FunctionOf(name).value, ts, contract);
    }
  }

  lemma CallTook(text: string, fn: Function, ts: seq<Token>, contract: Contract)
    requires Terminated(ts) && FunctionOf(ToLower(text)) == Some(fn)
    ensures TookPrimary([Identifier(text), LeftParen], ts, ParseCall(fn, ts, contract))
  {
    hide SpellsOr, OperandOf, FunctionOf, ToLower;
    var r := ParseCall(fn, ts, contract);
    if r.Ok? {
      OperandIsNoEnd(ts[0]);
      OperandIsNoEnd(ts[2]);
      var all := [Identifier(text), LeftParen, ts[0], ts[1], ts[2], ts[3]];
      assert [Identifier(text), LeftParen] + Taken(ts, r.value.1) == all;
      assert SpellsCall(all, r.value.0);
    }
  }

  lemma {:induction false} LambdaTook(text: string, all: bool, ts: seq<Token>, contract: Contract)
    requires Terminated(ts) && ToLower(text) == (if all then "tags/all" else "tags/any")
    ensures TookPrimary([Identifier(text), LeftParen], ts, ParseLambda(all, ts, contract))
    decreases |ts|, 0
  {
    hide SpellsPrimary, SpellsOr, ParseOr, ToLower;
    var r := ParseLambda(all, ts, contract);
    if r.Ok? {
      OrTook(ts[2..], None);
      var inner := ParseOr(ts[2..], None).value;
      TakenFirst(ts, 2, inner.1);
      Dropped(ts, 2, ts);
      LeftOfRest(Ok(inner), ts[2..], ts);
      TakenNext(ts, inner.1);
      var head := [Identifier(text), LeftParen, ts[0], ts[1]];
      OrAlone(ts[2..], Ok(inner));
      LambdaSpells(head, Taken(ts[2..], inner.1), r.value.0);
      assert [Identifier(text), LeftParen] + Taken(ts, r.value.1) == head + Taken(ts[2..], inner.1) + [RightParen];
    }
  }

  lemma LambdaSpells(head: seq<Token>, inner: seq<Token>, p: Predicate)
    requires |head| == 4 && LambdaHead(head, p) && SpellsOr(inner, p.body)
    ensures SpellsPrimary(head + inner + [RightParen], p)
  {
    hide SpellsOr, ToLower;
    var ts := head + inner + [RightParen];
    assert ts[4..|ts| - 1] == inner;
    assert ts[0] == head[0] && ts[1] == head[1] && ts[2] == head[2] && ts[3] == head[3];
  }

  /** WHAT THE PARSER READS IS A SPELLING of the filter it reads, and nothing else is taken. */
  lemma ReadIsSpelling(ts: seq<Token>, contract: Contract)
    requires Terminated(ts)
    ensures var r := ParseOr(ts, contract);
            r.Ok? ==> |r.value.1| <= |ts| && r.value.1 == ts[|ts| - |r.value.1|..]
                      && SpellsOr(ts[..|ts| - |r.value.1|], r.value.0)
  {
    hide ParseOr, SpellsOr;
    OrTook(ts, contract);
    var r := ParseOr(ts, contract);
    if r.Ok? {
      LeftOverIsSlice(r.value.1, ts);
      assert [] + Taken(ts, r.value.1) == Taken(ts, r.value.1);
    }
  }
}
