/** The `$filter` language of internal/arm/collection.go: its tokens, its grammar and what a parsed
    filter means. The loops and the cursor of the original are in `FilterParser`. */
module Filter {
  import opened Wrappers
  import opened GoStrings

  // --- Values ---

  /** A decoded JSON value. An object lists its members in the order a loop over them visits them,
      which decides a lookup when two keys differ only in case; that order is arbitrary. */
  datatype Value =
    | Null
    | Bool(b: bool)
    | Number(n: real)
    | String(s: string)
    | Array(items: seq<Value>)
    | Object(fields: seq<(string, Value)>)

  /** Which texts are numbers, and which number each is: `strconv.ParseFloat`, as a parameter. */
  type Numbers = string -> Option<real>

  // --- Tokens ---

  datatype Token =
    | EOF
    | Identifier(text: string)
    | Quoted(text: string)
    | Numeral(text: string)
    | LeftParen
    | RightParen
    | Comma
    | Colon

  datatype FilterError =
    | UnterminatedString
    | UnexpectedToken
    | MissingParenthesis
    | ExpectedField
    | ExpectedOperator
    | ExpectedValue
    | LiteralRequired
    | UnknownFunction
    | TwoArgumentsRequired
    | OneFieldRequired
    | VariableRequired
    | LambdaRequired
    | FieldNotSupported
    | OperatorNotSupported
    | FunctionNotSupported

  predicate SpaceByte(c: char) {
    IsSpace(c as int)
  }

  /** A byte that ends a word. */
  predicate Delimiter(c: char) {
    SpaceByte(c) || c in "(),:"
  }

  function WordLength(s: string): (n: nat)
    ensures n <= |s|
    ensures forall k | 0 <= k < n :: !Delimiter(s[k])
    ensures n < |s| ==> Delimiter(s[n])
  {
    if s == "" || Delimiter(s[0]) then 0 else 1 + WordLength(s[1..])
  }

  /** The text of a quoted string and the bytes up to and including its closing quote; `s` starts
      after the opening one. A doubled quote is one quote of text. */
  function QuotedText(s: string): (r: Option<(string, nat)>)
    ensures r.Some? ==> 1 <= r.value.1 <= |s|
  {
    if s == "" then None
    else if s[0] != '\'' then
      match QuotedText(s[1..])
      case Some((text, n)) => Some(([s[0]] + text, 1 + n))
      case None => None
    else if |s| > 1 && s[1] == '\'' then
      match QuotedText(s[2..])
      case Some((text, n)) => Some(("'" + text, 2 + n))
      case None => None
    else Some(("", 1))
  }

  /** The token for a word. */
  function Word(num: Numbers, text: string): Token {
    if num(text).Some? then Numeral(text) else Identifier(text)
  }

  /** The token `s` starts with, and its width. */
  function NextToken(num: Numbers, s: string): (r: Result<(Token, nat), FilterError>)
    requires s != "" && !SpaceByte(s[0])
    ensures r.Ok? ==> 1 <= r.value.1 <= |s| && r.value.0 != EOF
  {
    match s[0]
    case '(' => Ok((LeftParen, 1))
    case ')' => Ok((RightParen, 1))
    case ',' => Ok((Comma, 1))
    case ':' => Ok((Colon, 1))
    case '\'' =>
      (match QuotedText(s[1..])
       case Some((text, n)) => Ok((Quoted(text), 1 + n))
       case None => Err(UnterminatedString))
    case _ => Ok((Word(num, s[..WordLength(s)]), WordLength(s)))
  }

  function Prepend(tokens: seq<Token>, r: Result<seq<Token>, FilterError>): Result<seq<Token>, FilterError> {
    match r
    case Ok(more) => Ok(tokens + more)
    case Err(e) => Err(e)
  }

  /** One end token, and only there: what the parser's cursor relies on. */
  predicate Terminated(tokens: seq<Token>) {
    tokens != [] && forall k | 0 <= k < |tokens| :: tokens[k] == EOF <==> k == |tokens| - 1
  }

  function LexFilter(num: Numbers, s: string): (r: Result<seq<Token>, FilterError>)
    ensures r.Ok? ==> Terminated(r.value)
  {
    if s == "" then Ok([EOF])
    else if SpaceByte(s[0]) then LexFilter(num, s[1..])
    else
      match NextToken(num, s)
      case Err(e) => Err(e)
      case Ok((t, n)) => Prepend([t], LexFilter(num, s[n..]))
  }

  // --- Filters ---

  datatype Operator = Eq | Ne | Gt | Ge | Lt | Le

  datatype Function = Contains | StartsWith | EndsWith | SubstringOf | Any | All

  datatype Operand =
    | StringLiteral(text: string)
    | NumberLiteral(text: string)
    | BoolLiteral(b: bool)
    | NullLiteral
    | Field(name: string)

  datatype Predicate =
    | Or(left: Predicate, right: Predicate)
    | And(left: Predicate, right: Predicate)
    | Compare(field: string, op: Operator, operand: Operand)
    | Call(fn: Function, first: Operand, second: Operand)
    | Lambda(all: bool, variable: string, body: Predicate)

  /** What one collection lets a filter do with one field. */
  datatype Rule = Rule(operators: set<Operator>, functions: set<Function>)

  /** The audited contract of a collection, by lower-case field name; none for an unaudited one. */
  type Contract = Option<map<string, Rule>>

  function OperatorOf(text: string): Option<Operator> {
    match text
    case "eq" => Some(Eq)
    case "ne" => Some(Ne)
    case "gt" => Some(Gt)
    case "ge" => Some(Ge)
    case "lt" => Some(Lt)
    case "le" => Some(Le)
    case _ => None
  }

  /** The string functions; the tag lambdas are not among them. */
  function FunctionOf(text: string): (fn: Option<Function>)
    ensures fn.Some? ==> fn.value != Any && fn.value != All
  {
    match text
    case "contains" => Some(Contains)
    case "startswith" => Some(StartsWith)
    case "endswith" => Some(EndsWith)
    case "substringof" => Some(SubstringOf)
    case _ => None
  }

  predicate Keyword(t: Token, word: string) {
    t.Identifier? && EqualFold(t.text, word)
  }

  function OperandOf(t: Token): Option<Operand> {
    match t
    case Quoted(text) => Some(StringLiteral(text))
    case Numeral(text) => Some(NumberLiteral(text))
    case Identifier(text) =>
      Some(match ToLower(text)
           case "true" => BoolLiteral(true)
           case "false" => BoolLiteral(false)
           case "null" => NullLiteral
           case _ => Field(text))
    case _ => None
  }

  /** `validateField`: none when the contract has no objection. */
  function Objection(contract: Contract, field: string, op: Option<Operator>,
                     fn: Option<Function>): Option<FilterError> {
    if contract.None? then None
    else if ToLower(field) !in contract.value then Some(FieldNotSupported)
    else
      var rule := contract.value[ToLower(field)];
      if op.Some? && op.value !in rule.operators then Some(OperatorNotSupported)
      else if fn.Some? && fn.value !in rule.functions then Some(FunctionNotSupported)
      else None
  }

  // --- The grammar, as functions of the tokens left ---

  /** A parsed filter and the tokens after it. */
  type Parsed = Result<(Predicate, seq<Token>), FilterError>

  /** `rest` is what is left of the tokens once some are taken from their front. */
  predicate LeftOver(rest: seq<Token>, ts: seq<Token>) {
    rest == ts || (ts != [] && LeftOver(rest, ts[1..]))
  }

  lemma {:induction false} LeftOverIsSlice(rest: seq<Token>, ts: seq<Token>)
    requires LeftOver(rest, ts)
    ensures |rest| <= |ts| && rest == ts[|ts| - |rest|..]
  {
    if rest != ts {
      LeftOverIsSlice(rest, ts[1..]);
    }
  }

  /** What is left of the tokens left is left of all. */
  lemma {:induction false} LeftOfRest(r: Parsed, rest: seq<Token>, ts: seq<Token>)
    requires LeftOver(rest, ts) && (r.Ok? ==> LeftOver(r.value.1, rest))
    ensures r.Ok? ==> LeftOver(r.value.1, ts)
    decreases |ts|
  {
    if rest != ts {
      LeftOfRest(r, rest, ts[1..]);
    }
  }

  lemma {:induction false} Dropped(rest: seq<Token>, n: nat, ts: seq<Token>)
    requires LeftOver(rest, ts) && n <= |rest|
    ensures LeftOver(rest[n..], ts)
    decreases |ts|, n
  {
    if rest != ts {
      Dropped(rest, n, ts[1..]);
    } else if n > 0 {
      Dropped(ts[1..], n - 1, ts[1..]);
      assert ts[1..][n - 1..] == ts[n..];
    } else {
      assert rest[0..] == ts;
    }
  }

  function ParseOr(ts: seq<Token>, contract: Contract): (r: Parsed)
    requires Terminated(ts)
    ensures r.Ok? ==> |r.value.1| < |ts| && LeftOver(r.value.1, ts) && Terminated(r.value.1)
    decreases |ts|, 4
  {
    match ParseAnd(ts, contract)
    case Err(e) => Err(e)
    case Ok((left, rest)) =>
      var r := OrTail(left, rest, contract);
      LeftOfRest(r, rest, ts);
      r
  }

  function OrTail(left: Predicate, ts: seq<Token>, contract: Contract): (r: Parsed)
    requires Terminated(ts)
    ensures r.Ok? ==> |r.value.1| <= |ts| && LeftOver(r.value.1, ts) && Terminated(r.value.1)
    decreases |ts|, 5
  {
    if !Keyword(ts[0], "or") then Ok((left, ts))
    else
      match ParseAnd(ts[1..], contract)
      case Err(e) => Err(e)
      case Ok((right, rest)) =>
        var r := OrTail(Or(left, right), rest, contract);
        LeftOfRest(r, rest, ts);
        r
  }

  function ParseAnd(ts: seq<Token>, contract: Contract): (r: Parsed)
    requires Terminated(ts)
    ensures r.Ok? ==> |r.value.1| < |ts| && LeftOver(r.value.1, ts) && Terminated(r.value.1)
    decreases |ts|, 2
  {
    match ParsePrimary(ts, contract)
    case Err(e) => Err(e)
    case Ok((left, rest)) =>
      var r := AndTail(left, rest, contract);
      LeftOfRest(r, rest, ts);
      r
  }

  function AndTail(left: Predicate, ts: seq<Token>, contract: Contract): (r: Parsed)
    requires Terminated(ts)
    ensures r.Ok? ==> |r.value.1| <= |ts| && LeftOver(r.value.1, ts) && Terminated(r.value.1)
    decreases |ts|, 3
  {
    if !Keyword(ts[0], "and") then Ok((left, ts))
    else
      match ParsePrimary(ts[1..], contract)
      case Err(e) => Err(e)
      case Ok((right, rest)) =>
        var r := AndTail(And(left, right), rest, contract);
        LeftOfRest(r, rest, ts);
        r
  }

  function ParsePrimary(ts: seq<Token>, contract: Contract): (r: Parsed)
    requires Terminated(ts)
    ensures r.Ok? ==> |r.value.1| < |ts| && LeftOver(r.value.1, ts) && Terminated(r.value.1)
    decreases |ts|, 1
  {
    if ts[0] == LeftParen then
      match ParseOr(ts[1..], contract)
      case Err(_) => Err(MissingParenthesis)
      case Ok((inner, rest)) =>
        if rest[0] == RightParen then
          Dropped(rest, 1, ts);
          Ok((inner, rest[1..]))
        else Err(MissingParenthesis)
    else if !ts[0].Identifier? then Err(ExpectedField)
    else if ts[1] == LeftParen then
      Dropped(ts, 2, ts);
      var r := ParseFunction(ts[0].text, ts[2..], contract);
      LeftOfRest(r, ts[2..], ts);
      r
    else ParseComparison(ts[0].text, ts[1..], contract)
  }

  /** After a function's name and parenthesis. */
  function ParseFunction(text: string, ts: seq<Token>, contract: Contract): (r: Parsed)
    requires Terminated(ts)
    ensures r.Ok? ==> |r.value.1| < |ts| && LeftOver(r.value.1, ts) && Terminated(r.value.1)
    decreases |ts|, 1
  {
    var name := ToLower(text);
    if name == "tags/any" || name == "tags/all" then ParseLambda(name == "tags/all", ts, contract)
    else
      match FunctionOf(name)
      case None => Err(UnknownFunction)
      case Some(fn) => ParseCall(fn, ts, contract)
  }

  /** After the field name: an operator and its right operand. */
  function ParseComparison(field: string, ts: seq<Token>, contract: Contract): (r: Parsed)
    requires Terminated(ts)
    ensures r.Ok? ==> |r.value.1| < |ts| && LeftOver(r.value.1, ts) && Terminated(r.value.1)
    decreases |ts|, 0
  {
    if !ts[0].Identifier? || OperatorOf(ToLower(ts[0].text)).None? then Err(ExpectedOperator)
    else
      var op := OperatorOf(ToLower(ts[0].text)).value;
      match OperandOf(ts[1])
      case None => Err(ExpectedValue)
      case Some(operand) =>
        if contract.Some? && operand.Field? then Err(LiteralRequired)
        else
          match Objection(contract, field, Some(op), None)
          case Some(e) => Err(e)
          case None =>
            Dropped(ts, 2, ts);
            Ok((Compare(field, op, operand), ts[2..]))
  }

  /** The contract's say on a function call: exactly one operand is a field, and it allows it. */
  function CallObjection(contract: Contract, fn: Function, first: Operand, second: Operand): Option<FilterError> {
    if contract.None? then None
    else if first.Field? == second.Field? then Some(OneFieldRequired)
    else Objection(contract, if first.Field? then first.name else second.name, None, Some(fn))
  }

  /** A string function's two operands. */
  function ParseCall(fn: Function, ts: seq<Token>, contract: Contract): (r: Parsed)
    requires Terminated(ts)
    ensures r.Ok? ==> |r.value.1| < |ts| && LeftOver(r.value.1, ts) && Terminated(r.value.1)
    decreases |ts|, 0
  {
    if OperandOf(ts[0]).None? || ts[1] != Comma then Err(TwoArgumentsRequired)
    else if OperandOf(ts[2]).None? || ts[3] != RightParen then Err(TwoArgumentsRequired)
    else
      var (first, second) := (OperandOf(ts[0]).value, OperandOf(ts[2]).value);
      match CallObjection(contract, fn, first, second)
      case Some(e) => Err(e)
      case None =>
        Dropped(ts, 4, ts);
        Ok((Call(fn, first, second), ts[4..]))
  }

  /** A lambda's variable, and a filter the contract has no say in. */
  function ParseLambda(all: bool, ts: seq<Token>, contract: Contract): (r: Parsed)
    requires Terminated(ts)
    ensures r.Ok? ==> |r.value.1| < |ts| && LeftOver(r.value.1, ts) && Terminated(r.value.1)
    decreases |ts|, 0
  {
    if !ts[0].Identifier? then Err(VariableRequired)
    else if ts[1] != Colon then Err(LambdaRequired)
    else
      match ParseOr(ts[2..], None)
      case Err(e) => Err(e)
      case Ok((body, rest)) =>
        if rest[0] != RightParen then Err(MissingParenthesis)
        else
          match Objection(contract, "tags", None, Some(if all then All else Any))
          case Some(e) => Err(e)
          case None =>
            Dropped(ts, 2, ts);
            LeftOfRest(Ok((body, rest)), ts[2..], ts);
            Dropped(rest, 1, ts);
            Ok((Lambda(all, ts[0].text, body), rest[1..]))
  }

  /** The filter a query string names: none for a blank one. */
  function FilterOf(num: Numbers, source: string, contract: Contract): Result<Option<Predicate>, FilterError> {
    if TrimSpace(source) == "" then Ok(None)
    else
      match LexFilter(num, source)
      case Err(e) => Err(e)
      case Ok(ts) =>
        match ParseOr(ts, contract)
        case Err(e) => Err(e)
        case Ok((p, rest)) => if rest[0] == EOF then Ok(Some(p)) else Err(UnexpectedToken)
  }

  // --- Meaning ---

  /** Three values: a filter holds, does not hold, or cannot be evaluated. */
  datatype Outcome = Yes | No | Fail

  function Truth(b: bool): Outcome {
    if b then Yes else No
  }

  /** The first member, in iteration order, whose key is `name` in any case. */
  function Lookup(fields: seq<(string, Value)>, name: string): Option<Value> {
    if fields == [] then None
    else if EqualFold(fields[0].0, name) then Some(fields[0].1)
    else Lookup(fields[1..], name)
  }

  /** The member whose key is exactly `name`. */
  function Member(fields: seq<(string, Value)>, name: string): Option<Value> {
    if fields == [] then None
    else if fields[0].0 == name then Some(fields[0].1)
    else Member(fields[1..], name)
  }

  /** One path segment: a member, or for the first one, a member of `properties`. */
  function Segment(value: Value, part: string, first: bool): Option<Value> {
    if !value.Object? then None
    else
      match Lookup(value.fields, part)
      case Some(v) => Some(v)
      case None =>
        match if first then Member(value.fields, "properties") else None
        case Some(Object(properties)) => Lookup(properties, part)
        case _ => None
  }

  function Walk(current: Value, parts: seq<string>, first: bool): Option<Value>
    decreases |parts|
  {
    if parts == [] then Some(current)
    else
      match Segment(current, parts[0], first)
      case None => None
      case Some(next) => Walk(next, parts[1..], false)
  }

  function FieldValue(resource: Value, name: string): Option<Value> {
    Walk(resource, SplitAt(name, '/'), true)
  }

  function OperandValue(num: Numbers, operand: Operand, resource: Value): Option<Value> {
    match operand
    case StringLiteral(text) => Some(String(text))
    case NumberLiteral(text) => Some(Number(match num(text) case Some(n) => n case None => 0.0))
    case BoolLiteral(b) => Some(Bool(b))
    case NullLiteral => Some(Null)
    case Field(name) => FieldValue(resource, name)
  }

  function Ordered(comparison: int, op: Operator): Outcome {
    Truth(match op
          case Eq => comparison == 0
          case Ne => comparison != 0
          case Gt => comparison > 0
          case Ge => comparison >= 0
          case Lt => comparison < 0
          case Le => comparison <= 0)
  }

  function CompareValues(left: Value, right: Value, op: Operator): Outcome {
    if left.Null? || right.Null? then
      if op == Eq then Truth(left.Null? && right.Null?)
      else if op == Ne then Truth(!(left.Null? && right.Null?))
      else Fail
    else
      match (left, right)
      case (String(a), String(b)) => Ordered(GoStrings.Compare(a, b), op)
      case (Number(a), Number(b)) => Ordered(if a < b then -1 else if a > b then 1 else 0, op)
      case (Bool(a), Bool(b)) => if op == Eq || op == Ne then Ordered(if a != b then 1 else 0, op) else Fail
      case _ => Fail
  }

  function CallValues(fn: Function, left: Value, right: Value): Outcome {
    match (left, right)
    case (String(a), String(b)) =>
      Truth(match fn
            case Contains => GoStrings.Contains(a, b)
            case StartsWith => b <= a
            case EndsWith => HasSuffix(a, b)
            case _ => GoStrings.Contains(b, a))
    case _ => Fail
  }

  /** What a filter says of a resource. The right side of `or` and `and` counts only while the left
      has neither decided nor failed. */
  function Meaning(num: Numbers, p: Predicate, resource: Value): Outcome
    decreases p, 0
  {
    match p
    case Or(left, right) =>
      var m := Meaning(num, left, resource);
      if m == No then Meaning(num, right, resource) else m
    case And(left, right) =>
      var m := Meaning(num, left, resource);
      if m == Yes then Meaning(num, right, resource) else m
    case Compare(field, op, operand) =>
      (match (FieldValue(resource, field), OperandValue(num, operand, resource))
       case (Some(a), Some(b)) => CompareValues(a, b, op)
       case _ => Fail)
    case Call(fn, first, second) =>
      (match (OperandValue(num, first, resource), OperandValue(num, second, resource))
       case (Some(a), Some(b)) => CallValues(fn, a, b)
       case _ => Fail)
    case Lambda(all, variable, body) =>
      match FieldValue(resource, "tags")
      case None => Fail
      case Some(Array(items)) => Quantify(num, all, variable, body, items)
      case Some(_) => Truth(all)
  }

  /** Stops at the first item that decides, or fails. */
  function Quantify(num: Numbers, all: bool, variable: string, body: Predicate, items: seq<Value>): Outcome
    decreases body, |items| + 1
  {
    if items == [] then Truth(all)
    else
      var m := Meaning(num, body, Object([(variable, items[0])]));
      if m == Truth(all) then Quantify(num, all, variable, body, items[1..]) else m
  }
}
