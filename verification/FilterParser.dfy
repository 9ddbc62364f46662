/** The `$filter` lexer loop and the recursive-descent parser of internal/arm/collection.go: a cursor
    over the tokens, a contract switched off and on around lambdas, and predicates built as closures. */
module FilterParser {
  import opened Wrappers
  import opened GoStrings
  import opened Filter
  import G = Filter

  /** Text collected so far, before what is still to be read `n` bytes further on. */
  function Collected(text: string, n: nat, r: Option<(string, nat)>): Option<(string, nat)> {
    match r
    case Some((more, k)) => Some((text + more, n + k))
    case None => None
  }

  method ReadQuoted(source: string, start: nat) returns (r: Option<(string, nat)>)
    requires start <= |source|
    ensures r == Collected("", start, QuotedText(source[start..]))
  {
    var index := start;
    var value := "";
    ghost var rest := source[start..];
    while index < |source|
      invariant start <= index <= |source| && rest == source[index..]
      invariant Collected("", start, QuotedText(source[start..])) == Collected(value, index, QuotedText(rest))
    {
      ghost var tail := QuotedText(rest);
      if source[index] != '\'' {
        CollectedTwice(value, index, [source[index]], 1, QuotedText(rest[1..]));
        value := value + [source[index]];
        index := index + 1;
        rest := rest[1..];
        continue;
      }
      if index + 1 < |source| && source[index + 1] == '\'' {
        CollectedTwice(value, index, "'", 2, QuotedText(rest[2..]));
        value := value + "'";
        index := index + 2;
        rest := rest[2..];
        continue;
      }
      assert value + "" == value;
      return Some((value, index + 1));
    }
    return None;
  }

  lemma CollectedTwice(text: string, n: nat, more: string, k: nat, r: Option<(string, nat)>)
    ensures Collected(text, n, Collected(more, k, r)) == Collected(text + more, n + k, r)
  {
    if r.Some? {
      assert text + (more + r.value.0) == text + more + r.value.0;
    }
  }

  method ReadWord(source: string, start: nat) returns (index: nat)
    requires start <= |source|
    ensures index == start + WordLength(source[start..])
  {
    index := start;
    ghost var rest := source[start..];
    while index < |source| && !Delimiter(source[index])
      invariant start <= index <= |source| && rest == source[index..]
      invariant WordLength(source[start..]) == index - start + WordLength(rest)
    {
      index := index + 1;
      rest := rest[1..];
    }
  }

  method ReadToken(num: Numbers, source: string, index: nat) returns (r: Result<(Token, nat), FilterError>)
    requires index < |source| && !SpaceByte(source[index])
    ensures r == NextToken(num, source[index..])
  {
    hide WordLength, QuotedText;
    ghost var s := source[index..];
    var c := source[index];
    if c == '(' {
      return Ok((LeftParen, 1));
    } else if c == ')' {
      return Ok((RightParen, 1));
    } else if c == ',' {
      return Ok((Comma, 1));
    } else if c == ':' {
      return Ok((Colon, 1));
    } else if c == '\'' {
      var quoted := ReadQuoted(source, index + 1);
      assert source[index + 1..] == s[1..];
      if quoted.None? {
        return Err(UnterminatedString);
      }
      ghost var (text, n) := QuotedText(s[1..]).value;
      assert "" + text == text;
      assert quoted.value == (text, index + 1 + n);
      return Ok((Quoted(quoted.value.0), quoted.value.1 - index));
    } else {
      var end := ReadWord(source, index);
      assert source[index..end] == s[..end - index];
      return Ok((Word(num, source[index..end]), end - index));
    }
  }

  /** `lexFilter`. */
  method Lex(num: Numbers, source: string) returns (r: Result<seq<Token>, FilterError>)
    ensures r == LexFilter(num, source)
  {
    hide NextToken;
    var tokens: seq<Token> := [];
    var index := 0;
    ghost var rest := source;
    ghost var goal := LexFilter(num, source);
    PrependTwice([], [], goal);
    while index < |source|
      invariant 0 <= index <= |source| && rest == source[index..]
      invariant goal == Prepend(tokens, LexFilter(num, rest))
    {
      if SpaceByte(source[index]) {
        index := index + 1;
        rest := rest[1..];
        continue;
      }
      var next := ReadToken(num, source, index);
      if next.Err? {
        return Err(next.error);
      }
      var (token, width) := next.value;
      PrependTwice(tokens, [token], LexFilter(num, rest[width..]));
      tokens := tokens + [token];
      index := index + width;
      rest := rest[width..];
    }
    return Ok(tokens + [EOF]);
  }

  lemma PrependTwice(some: seq<Token>, more: seq<Token>, r: Result<seq<Token>, FilterError>)
    ensures Prepend(some, Prepend(more, r)) == Prepend(some + more, r)
    ensures Prepend([], r) == r
  {
    if r.Ok? {
      assert some + (more + r.value) == some + more + r.value;
      assert [] + r.value == r.value;
    }
  }

  /** A parsed filter as the original keeps it: a closure over a resource. */
  type Closure = Value -> Outcome

  ghost predicate Computes(f: Closure, num: Numbers, p: Predicate) {
    forall resource :: f(resource) == Meaning(num, p, resource)
  }

  /** The closure `parseOr` builds: the right side runs only when the left says no. */
  function Disjoin(previous: Closure, right: Closure): Closure {
    resource => var matched := previous(resource); if matched != No then matched else right(resource)
  }

  lemma DisjoinComputes(f: Closure, g: Closure, num: Numbers, p: Predicate, q: Predicate)
    requires Computes(f, num, p) && Computes(g, num, q)
    ensures Computes(Disjoin(f, g), num, Or(p, q))
  {
  }

  /** The closure `parseAnd` builds: the right side runs only when the left says yes. */
  function Conjoin(previous: Closure, right: Closure): Closure {
    resource => var matched := previous(resource); if matched != Yes then matched else right(resource)
  }

  lemma ConjoinComputes(f: Closure, g: Closure, num: Numbers, p: Predicate, q: Predicate)
    requires Computes(f, num, p) && Computes(g, num, q)
    ensures Computes(Conjoin(f, g), num, And(p, q))
  {
  }

  /** The lambda's closure: its loop over the tags. */
  function Judge(all: bool, variable: string, f: Closure): Closure {
    resource =>
      match FieldValue(resource, "tags")
      case None => Fail
      case Some(Array(items)) => JudgeItems(all, variable, f, items)
      case Some(_) => Truth(all)
  }

  function JudgeItems(all: bool, variable: string, f: Closure, items: seq<Value>): Outcome {
    if items == [] then Truth(all)
    else
      match f(Object([(variable, items[0])]))
      case Fail => Fail
      case Yes => if all then JudgeItems(all, variable, f, items[1..]) else Yes
      case No => if all then No else JudgeItems(all, variable, f, items[1..])
  }

  lemma {:induction false} JudgeIsQuantify(f: Closure, num: Numbers, all: bool, variable: string, body: Predicate,
                                           items: seq<Value>)
    requires Computes(f, num, body)
    ensures JudgeItems(all, variable, f, items) == Quantify(num, all, variable, body, items)
  {
    if items != [] {
      JudgeIsQuantify(f, num, all, variable, body, items[1..]);
    }
  }

  lemma JudgeComputes(f: Closure, num: Numbers, all: bool, variable: string, body: Predicate)
    requires Computes(f, num, body)
    ensures Computes(Judge(all, variable, f), num, Lambda(all, variable, body))
  {
    hide FieldValue;
    forall resource ensures Judge(all, variable, f)(resource) == Meaning(num, Lambda(all, variable, body), resource) {
      var tags := FieldValue(resource, "tags");
      if tags.Some? && tags.value.Array? {
        JudgeIsQuantify(f, num, all, variable, body, tags.value.items);
      }
    }
  }

  /** The closure of a function call. */
  function Apply(num: Numbers, fn: Function, first: Operand, second: Operand): Closure {
    resource =>
      match (OperandValue(num, first, resource), OperandValue(num, second, resource))
      case (Some(left), Some(right)) => CallValues(fn, left, right)
      case _ => Fail
  }

  lemma ApplyComputes(num: Numbers, fn: Function, first: Operand, second: Operand)
    ensures Computes(Apply(num, fn, first, second), num, Call(fn, first, second))
  {
  }

  /** The grammar's answer on a lambda, case by case. */
  lemma LambdaCases(all: bool, ts: seq<Token>, contract: Contract)
    requires Terminated(ts)
    ensures var r := G.ParseLambda(all, ts, contract);
            if !ts[0].Identifier? then r == Err(VariableRequired)
            else if ts[1] != Colon then r == Err(LambdaRequired)
            else
              var inner := G.ParseOr(ts[2..], None);
              if inner.Err? then r == Err(inner.error)
              else if inner.value.1[0] != RightParen then r == Err(MissingParenthesis)
              else
                var objection := Objection(contract, "tags", None, Some(if all then All else Any));
                if objection.Some? then r == Err(objection.value)
                else r == Ok((Lambda(all, ts[0].text, inner.value.0), inner.value.1[1..]))
  {
  }

  class Parser {
    const num: Numbers
    const tokens: seq<Token>
    var index: nat
    var current: Token
    var contract: Contract

    constructor (num: Numbers, tokens: seq<Token>, contract: Contract)
      requires Terminated(tokens)
      ensures Valid() && index == 0 && this.tokens == tokens && this.num == num && this.contract == contract
    {
      this.num := num;
      this.tokens := tokens;
      this.index := 0;
      this.current := tokens[0];
      this.contract := contract;
    }

    ghost predicate Valid()
      reads this
    {
      Terminated(tokens) && index < |tokens| && current == tokens[index]
    }

    ghost function Rest(): (ts: seq<Token>)
      requires Valid()
      reads this
      ensures Terminated(ts)
    {
      tokens[index..]
    }

    /** The parser behaves as the grammar says: the closure computes the parsed filter, the cursor
        stands after it, and the error is the grammar's. On every exit the contract is as before. */
    twostate predicate Follows(expected: Parsed, new r: Result<Closure, FilterError>)
      reads this
    {
      && Valid() && contract == old(contract) && old(index) <= index
      && match expected
         case Ok((p, rest)) => r.Ok? && Computes(r.value, num, p) && Rest() == rest
         case Err(e) => r == Err(e)
    }

    method Advance()
      requires Valid() && current != EOF
      modifies this`index, this`current
      ensures Valid() && index == old(index) + 1 && Rest() == old(Rest())[1..]
    {
      index := index + 1;
      current := tokens[index];
    }

    method ParseOr() returns (r: Result<Closure, FilterError>)
      requires Valid()
      modifies this`index, this`current, this`contract
      ensures Follows(G.ParseOr(old(Rest()), old(contract)), r)
      decreases |tokens| - index, 3
    {
      hide G.ParseAnd, Computes;
      ghost var goal := G.ParseOr(Rest(), contract);
      r := ParseAnd();
      if r.Err? {
        return;
      }
      var left := r.value;
      ghost var p := G.ParseAnd(old(Rest()), contract).value.0;
      while Keyword(current, "or")
        invariant Valid() && contract == old(contract) && old(index) < index
        invariant Computes(left, num, p)
        invariant goal == OrTail(p, Rest(), contract)
        decreases |tokens| - index
      {
        Advance();
        ghost var ahead := Rest();
        r := ParseAnd();
        if r.Err? {
          return;
        }
        ghost var q := G.ParseAnd(ahead, contract).value.0;
        DisjoinComputes(left, r.value, num, p, q);
        left := Disjoin(left, r.value);
        p := Or(p, q);
      }
      return Ok(left);
    }

    method ParseAnd() returns (r: Result<Closure, FilterError>)
      requires Valid()
      modifies this`index, this`current, this`contract
      ensures Follows(G.ParseAnd(old(Rest()), old(contract)), r)
      decreases |tokens| - index, 2
    {
      hide G.ParsePrimary, Computes;
      ghost var goal := G.ParseAnd(Rest(), contract);
      r := ParsePrimary();
      if r.Err? {
        return;
      }
      var left := r.value;
      ghost var p := G.ParsePrimary(old(Rest()), contract).value.0;
      while Keyword(current, "and")
        invariant Valid() && contract == old(contract) && old(index) < index
        invariant Computes(left, num, p)
        invariant goal == AndTail(p, Rest(), contract)
        decreases |tokens| - index
      {
        Advance();
        ghost var ahead := Rest();
        r := ParsePrimary();
        if r.Err? {
          return;
        }
        ghost var q := G.ParsePrimary(ahead, contract).value.0;
        ConjoinComputes(left, r.value, num, p, q);
        left := Conjoin(left, r.value);
        p := And(p, q);
      }
      return Ok(left);
    }

    method ParsePrimary() returns (r: Result<Closure, FilterError>)
      requires Valid()
      modifies this`index, this`current, this`contract
      ensures Follows(G.ParsePrimary(old(Rest()), old(contract)), r)
      decreases |tokens| - index, 1
    {
      hide G.ParseOr, G.ParseFunction, G.ParseComparison;
      if current == LeftParen {
        Advance();
        r := ParseOr();
        if r.Err? || current != RightParen {
          return Err(MissingParenthesis);
        }
        Advance();
        return;
      }
      if !current.Identifier? {
        return Err(ExpectedField);
      }
      var name := current.text;
      Advance();
      if current == LeftParen {
        r := ParseFunction(name);
      } else {
        r := ParseComparison(name);
      }
    }

    method ParseComparison(name: string) returns (r: Result<Closure, FilterError>)
      requires Valid()
      modifies this`index, this`current, this`contract
      ensures Follows(G.ParseComparison(name, old(Rest()), old(contract)), r)
    {
      ghost var start := index;
      if !current.Identifier? || OperatorOf(ToLower(current.text)).None? {
        return Err(ExpectedOperator);
      }
      var op := OperatorOf(ToLower(current.text)).value;
      Advance();
      var operand := ParseOperand();
      if operand.Err? {
        return Err(operand.error);
      }
      var right := operand.value;
      if contract.Some? && right.Field? {
        return Err(LiteralRequired);
      }
      var objection := Objection(contract, name, Some(op), None);
      if objection.Some? {
        return Err(objection.value);
      }
      var n := num;
      return Ok(resource => match (FieldValue(resource, name), OperandValue(n, right, resource))
                            case (Some(a), Some(b)) => CompareValues(a, b, op)
                            case _ => Fail);
    }

    method ParseOperand() returns (r: Result<Operand, FilterError>)
      requires Valid()
      modifies this`index, this`current
      ensures Valid()
      ensures match OperandOf(old(current))
              case Some(operand) => r == Ok(operand) && index == old(index) + 1 && Rest() == old(Rest())[1..]
              case None => r == Err(ExpectedValue) && index == old(index)
    {
      var operand := OperandOf(current);
      if operand.None? {
        return Err(ExpectedValue);
      }
      Advance();
      return Ok(operand.value);
    }

    method ParseFunction(text: string) returns (r: Result<Closure, FilterError>)
      requires Valid() && current == LeftParen
      modifies this`index, this`current, this`contract
      ensures Follows(G.ParseFunction(text, old(Rest())[1..], old(contract)), r)
      decreases |tokens| - index, 1
    {
      hide G.ParseCall, G.ParseLambda;
      var name := ToLower(text);
      if name == "tags/any" || name == "tags/all" {
        r := ParseCollectionLambda(name == "tags/all");
        return;
      }
      var fn := FunctionOf(name);
      if fn.None? {
        return Err(UnknownFunction);
      }
      r := ParseCall(fn.value);
    }

    method ParseCall(fn: Function) returns (r: Result<Closure, FilterError>)
      requires Valid() && current == LeftParen
      modifies this`index, this`current, this`contract
      ensures Follows(G.ParseCall(fn, old(Rest())[1..], old(contract)), r)
    {
      hide Computes, OperandOf, CallObjection;
      Advance();
      var first := ParseOperand();
      if first.Err? || current != Comma {
        return Err(TwoArgumentsRequired);
      }
      Advance();
      var second := ParseOperand();
      if second.Err? || current != RightParen {
        return Err(TwoArgumentsRequired);
      }
      Advance();
      ApplyComputes(num, fn, first.value, second.value);
      var objection := CallObjection(contract, fn, first.value, second.value);
      if objection.Some? {
        return Err(objection.value);
      }
      return Ok(Apply(num, fn, first.value, second.value));
    }

    method ParseUncontracted() returns (r: Result<Closure, FilterError>)
      requires Valid()
      modifies this`index, this`current, this`contract
      ensures Follows(G.ParseOr(old(Rest()), None), r)
      decreases |tokens| - index, 4
    {
      hide G.ParseOr, Computes;
      var saved := contract;
      contract := None;
      r := ParseOr();
      contract := saved;
    }

    /** The lambda's variable and colon. */
    method ParseVariable() returns (r: Result<string, FilterError>)
      requires Valid()
      modifies this`index, this`current
      ensures Valid() && old(index) <= index
      ensures var ts := old(Rest());
              if !ts[0].Identifier? then r == Err(VariableRequired)
              else if ts[1] != Colon then r == Err(LambdaRequired)
              else r == Ok(ts[0].text) && Rest() == ts[2..]
    {
      if !current.Identifier? {
        return Err(VariableRequired);
      }
      var variable := current.text;
      Advance();
      if current != Colon {
        return Err(LambdaRequired);
      }
      Advance();
      return Ok(variable);
    }

    /** The lambda's closing parenthesis, and the contract's say on it. */
    method CloseLambda(all: bool) returns (e: Option<FilterError>)
      requires Valid()
      modifies this`index, this`current
      ensures Valid() && old(index) <= index
      ensures if old(current) != RightParen then e == Some(MissingParenthesis)
              else e == Objection(contract, "tags", None, Some(if all then All else Any)) && Rest() == old(Rest())[1..]
    {
      if current != RightParen {
        return Some(MissingParenthesis);
      }
      Advance();
      return Objection(contract, "tags", None, Some(if all then All else Any));
    }

    /** Reads the lambda's filter with no contract in force, and puts the contract back whatever
        became of it. */
    method ParseCollectionLambda(all: bool) returns (r: Result<Closure, FilterError>)
      requires Valid() && current == LeftParen
      modifies this`index, this`current, this`contract
      ensures Follows(G.ParseLambda(all, old(Rest())[1..], old(contract)), r)
      decreases |tokens| - index, 0
    {
      hide G.ParseLambda, G.ParseOr, Computes, Objection, Judge;
      Advance();
      ghost var ts := Rest();
      LambdaCases(all, ts, contract);
      var variable := ParseVariable();
      if variable.Err? {
        return Err(variable.error);
      }
      r := ParseUncontracted();
      if r.Err? {
        return;
      }
      JudgeComputes(r.value, num, all, variable.value, G.ParseOr(ts[2..], None).value.0);
      var objection := CloseLambda(all);
      if objection.Some? {
        return Err(objection.value);
      }
      return Ok(Judge(all, variable.value, r.value));
    }
  }

  /** `parseFilterWithContract`: a blank filter accepts everything; otherwise the whole source is one
      filter. */
  method ParseFilter(num: Numbers, source: string, contract: Contract) returns (r: Result<Closure, FilterError>)
    ensures match FilterOf(num, source, contract)
            case Ok(None) => r.Ok? && forall resource :: r.value(resource) == Yes
            case Ok(Some(p)) => r.Ok? && Computes(r.value, num, p)
            case Err(e) => r == Err(e)
  {
    hide G.ParseOr, TrimSpace;
    if TrimSpace(source) == "" {
      return Ok(resource => Yes);
    }
    var tokens := Lex(num, source);
    if tokens.Err? {
      return Err(tokens.error);
    }
    var parser := new Parser(num, tokens.value, contract);
    assert tokens.value[0..] == tokens.value;
    r := parser.ParseOr();
    if r.Ok? && parser.current != EOF {
      return Err(UnexpectedToken);
    }
  }
}
