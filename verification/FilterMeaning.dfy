/** What the comparisons, string functions and field paths of a filter mean, said without the code. */
module FilterMeaning {
  import opened Wrappers
  import opened GoStrings
  import opened Filter

  // --- Order ---

  /** Dictionary order: at the first difference `a` has the smaller byte, or ends. */
  ghost predicate Earlier(a: string, b: string) {
    exists k: nat :: DiffersAt(a, b, k) && (k == |a| || a[k] < b[k])
  }

  /** They are the same up to here, and `b` goes on. */
  predicate DiffersAt(a: string, b: string, k: nat) {
    k <= |a| && k < |b| && a[..k] == b[..k]
  }

  lemma DiffersLater(a: string, b: string, k: nat)
    requires a != "" && b != "" && a[0] == b[0]
    ensures DiffersAt(a, b, k + 1) <==> DiffersAt(a[1..], b[1..], k)
  {
    if k + 1 <= |a| && k + 1 <= |b| {
      assert a[..k + 1] == [a[0]] + a[1..][..k] && b[..k + 1] == [b[0]] + b[1..][..k];
      assert a[1..][..k] == a[..k + 1][1..] && b[1..][..k] == b[..k + 1][1..];
    }
  }

  lemma EarlierLater(a: string, b: string)
    requires a != "" && b != "" && a[0] == b[0]
    ensures Earlier(a, b) <==> Earlier(a[1..], b[1..])
  {
    var x, y := a[1..], b[1..];
    forall k: nat | DiffersAt(x, y, k) && (k == |x| || x[k] < y[k]) ensures Earlier(a, b) {
      DiffersLater(a, b, k);
    }
    forall k: nat | DiffersAt(a, b, k) && (k == |a| || a[k] < b[k]) ensures Earlier(x, y) {
      DiffersLater(a, b, k - 1);
    }
  }

  lemma {:induction false} CompareIsDictionaryOrder(a: string, b: string)
    ensures GoStrings.Compare(a, b) < 0 <==> Earlier(a, b)
  {
    if a != "" && b != "" && a[0] == b[0] {
      CompareIsDictionaryOrder(a[1..], b[1..]);
      EarlierLater(a, b);
    } else {
      assert b != "" ==> DiffersAt(a, b, 0);
      forall k: nat ensures DiffersAt(a, b, k) ==> k == 0 {
        DiffersAtStart(a, b, k);
      }
    }
  }

  lemma DiffersAtStart(a: string, b: string, k: nat)
    requires a == "" || b == "" || a[0] != b[0]
    ensures DiffersAt(a, b, k) ==> k == 0
  {
    if 0 < k <= |a| && k <= |b| {
      assert a[..k][0] == a[0] && b[..k][0] == b[0];
    }
  }

  /** What an operator says of two comparable values, by their order and equality. */
  ghost predicate Relates(op: Operator, less: bool, same: bool) {
    match op
    case Eq => same
    case Ne => !same
    case Gt => !less && !same
    case Ge => !less
    case Lt => less
    case Le => less || same
  }

  predicate ByEquality(left: Value, right: Value) {
    (left.Bool? && right.Bool?) || left.Null? || right.Null?
  }

  /** COMPARISONS MEAN WHAT THEY SAY: strings in dictionary order, numbers in theirs, booleans and nulls
      by equality only, and nothing else compares. */
  lemma ComparisonsMean(left: Value, right: Value, op: Operator)
    ensures left.String? && right.String? ==>
              CompareValues(left, right, op) == Truth(Relates(op, Earlier(left.s, right.s), left == right))
    ensures left.Number? && right.Number? ==>
              CompareValues(left, right, op) == Truth(Relates(op, left.n < right.n, left == right))
    ensures ByEquality(left, right) ==>
              CompareValues(left, right, op) ==
              if op == Eq || op == Ne then Truth(Relates(op, false, left == right)) else Fail
    ensures !(left.String? && right.String?) && !(left.Number? && right.Number?) && !ByEquality(left, right) ==>
              CompareValues(left, right, op) == Fail
  {
    if left.String? && right.String? {
      CompareIsDictionaryOrder(left.s, right.s);
    }
  }

  // --- String functions ---

  ghost predicate OccursAt(part: string, s: string, i: int) {
    0 <= i <= |s| - |part| && s[i..i + |part|] == part
  }

  ghost predicate OccursIn(part: string, s: string) {
    exists i :: OccursAt(part, s, i)
  }

  lemma OccursLater(part: string, s: string, i: int)
    requires 0 < i <= |s| - |part|
    ensures OccursAt(part, s, i) <==> OccursAt(part, s[1..], i - 1)
  {
    assert s[1..][i - 1..i - 1 + |part|] == s[i..i + |part|];
  }

  lemma {:induction false} ContainsIsOccurrence(s: string, part: string)
    ensures GoStrings.Contains(s, part) <==> OccursIn(part, s)
  {
    if part <= s {
      assert OccursAt(part, s, 0);
    } else if s != "" {
      var rest := s[1..];
      ContainsIsOccurrence(rest, part);
      forall i | OccursAt(part, rest, i) ensures OccursAt(part, s, i + 1) {
        OccursLater(part, s, i + 1);
      }
      forall i | OccursAt(part, s, i) ensures OccursAt(part, rest, i - 1) {
        assert i != 0;
        OccursLater(part, s, i);
      }
    }
  }

  /** What a string function promises of two strings. */
  ghost predicate Holds(fn: Function, a: string, b: string) {
    match fn
    case StartsWith => exists after :: a == b + after
    case EndsWith => exists before :: a == before + b
    case Contains => OccursIn(b, a)
    case _ => OccursIn(a, b)
  }

  /** THE STRING FUNCTIONS: the first argument holds the second at its start, at its end or anywhere;
      `substringof` takes its arguments the other way round; anything but strings is an error. */
  lemma CallsMean(fn: Function, left: Value, right: Value)
    ensures CallValues(fn, left, right) ==
              if left.String? && right.String? then Truth(Holds(fn, left.s, right.s)) else Fail
  {
    hide GoStrings.Contains, OccursIn;
    if left.String? && right.String? {
      var a, b := left.s, right.s;
      ContainsIsOccurrence(a, b);
      ContainsIsOccurrence(b, a);
      if b <= a {
        assert a == b + a[|b|..];
      }
      if HasSuffix(a, b) {
        assert a == a[..|a| - |b|] + b;
      }
    }
  }

  // --- Field paths ---

  /** No member of the object has this name in any case. */
  ghost predicate Absent(fields: seq<(string, Value)>, name: string) {
    forall k | 0 <= k < |fields| :: !EqualFold(fields[k].0, name)
  }

  lemma {:induction false} LookupFindsFirst(fields: seq<(string, Value)>, name: string)
    ensures Lookup(fields, name).None? <==> Absent(fields, name)
    ensures forall k | 0 <= k < |fields| && EqualFold(fields[k].0, name) && Absent(fields[..k], name) ::
              Lookup(fields, name) == Some(fields[k].1)
  {
    if fields != [] {
      LookupFindsFirst(fields[1..], name);
      assert forall k | 0 <= k < |fields| - 1 :: fields[1..][k] == fields[k + 1];
      assert forall k | 0 < k < |fields| :: fields[k] == fields[1..][k - 1];
      forall k | 0 <= k < |fields| && EqualFold(fields[k].0, name) && Absent(fields[..k], name)
        ensures Lookup(fields, name) == Some(fields[k].1)
      {
        if k > 0 {
          assert fields[..k][0] == fields[0];
          assert fields[1..][..k - 1] == fields[..k][1..];
          assert Absent(fields[1..][..k - 1], name);
        }
      }
    }
  }

  /** The value of some member of this name, in any case. */
  ghost predicate Holding(fields: seq<(string, Value)>, name: string, v: Value) {
    exists k | 0 <= k < |fields| :: EqualFold(fields[k].0, name) && fields[k].1 == v
  }

  lemma {:induction false} LookupIsMember(fields: seq<(string, Value)>, name: string)
    ensures Lookup(fields, name).Some? ==> Holding(fields, name, Lookup(fields, name).value)
    ensures Lookup(fields, name).None? ==> forall v :: !Holding(fields, name, v)
  {
    LookupFindsFirst(fields, name);
    if fields != [] && !EqualFold(fields[0].0, name) {
      LookupIsMember(fields[1..], name);
      assert forall k | 0 <= k < |fields| - 1 :: fields[1..][k] == fields[k + 1];
    }
  }

  /** THE ORDER OF MEMBERS matters to a lookup exactly when two members of that name, in different
      case, have different values: else every order of the same members finds the same. */
  lemma LookupIgnoresOrder(fields: seq<(string, Value)>, name: string)
    ensures (forall other | multiset(other) == multiset(fields) :: Lookup(other, name) == Lookup(fields, name)) <==>
              forall v, w | Holding(fields, name, v) && Holding(fields, name, w) :: v == w
  {
    if forall v, w | Holding(fields, name, v) && Holding(fields, name, w) :: v == w {
      forall other | multiset(other) == multiset(fields) ensures Lookup(other, name) == Lookup(fields, name) {
        LookupIsMember(fields, name);
        LookupIsMember(other, name);
        SameHolding(other, fields, name);
      }
    } else {
      var v, w :| Holding(fields, name, v) && Holding(fields, name, w) && v != w;
      var a := HoldingFirst(fields, name, v);
      var b := HoldingFirst(fields, name, w);
      assert Lookup(a, name) == Some(v) && Lookup(b, name) == Some(w);
    }
  }

  lemma SameHolding(a: seq<(string, Value)>, b: seq<(string, Value)>, name: string)
    requires multiset(a) == multiset(b)
    ensures forall v :: Holding(a, name, v) <==> Holding(b, name, v)
  {
    forall v | Holding(a, name, v) ensures Holding(b, name, v) {
      var k :| 0 <= k < |a| && EqualFold(a[k].0, name) && a[k].1 == v;
      assert a[k] in multiset(a) && a[k] in b;
    }
    forall v | Holding(b, name, v) ensures Holding(a, name, v) {
      var k :| 0 <= k < |b| && EqualFold(b[k].0, name) && b[k].1 == v;
      assert b[k] in multiset(b) && b[k] in a;
    }
  }

  /** The same members, one of that name and value in front. */
  lemma HoldingFirst(fields: seq<(string, Value)>, name: string, v: Value) returns (other: seq<(string, Value)>)
    requires Holding(fields, name, v)
    ensures multiset(other) == multiset(fields) && Lookup(other, name) == Some(v)
  {
    var k :| 0 <= k < |fields| && EqualFold(fields[k].0, name) && fields[k].1 == v;
    other := [fields[k]] + fields[..k] + fields[k + 1..];
    assert fields == fields[..k] + [fields[k]] + fields[k + 1..];
  }

  /** The member `name` of an object, and of nothing else. */
  function Below(v: Option<Value>, name: string): Option<Value> {
    if v.Some? && v.value.Object? then Lookup(v.value.fields, name) else None
  }

  /** `name`, or `name` inside `properties` when the resource itself has no such member: a member of
      the resource hides one of its properties. */
  lemma PlainFieldValue(fields: seq<(string, Value)>, name: string)
    requires '/' !in name
    ensures FieldValue(Object(fields), name) ==
              if !Absent(fields, name) then Lookup(fields, name)
              else Below(Member(fields, "properties"), name)
  {
    SplitPieces(name, '/');
    LookupFindsFirst(fields, name);
    WalkOne(Object(fields), name, true);
  }

  lemma SegmentInside(value: Value, part: string)
    ensures Segment(value, part, false) == Below(Some(value), part)
  {
  }

  lemma WalkOne(value: Value, part: string, first: bool)
    ensures Walk(value, [part], first) == Segment(value, part, first)
  {
    assert [part][1..] == [];
    var next := Segment(value, part, first);
    if next.Some? {
      assert Walk(next.value, [], false) == next;
    }
  }

  lemma {:induction false} WalkAppend(current: Value, parts: seq<string>, last: string, first: bool)
    requires parts != []
    ensures Walk(current, parts + [last], first) == Below(Walk(current, parts, first), last)
    decreases |parts|
  {
    assert (parts + [last])[1..] == parts[1..] + [last];
    var next := Segment(current, parts[0], first);
    if next.Some? {
      if |parts| == 1 {
        SegmentInside(next.value, last);
        WalkOne(next.value, last, false);
      } else {
        WalkAppend(next.value, parts[1..], last, false);
      }
    }
  }

  /** A LONGER PATH GOES ONE MEMBER DEEPER, and only into objects. */
  lemma PathFieldValue(resource: Value, path: string, last: string)
    requires '/' !in last
    ensures FieldValue(resource, path + "/" + last) == Below(FieldValue(resource, path), last)
  {
    SplitJoined(path, last, '/');
    SplitPieces(last, '/');
    WalkAppend(resource, SplitAt(path, '/'), last, true);
  }

  // --- What the tag lambdas mean ---

  function ItemMeaning(num: Numbers, variable: string, body: Predicate, item: Value): Outcome {
    Meaning(num, body, Object([(variable, item)]))
  }

  /** `any` holds when the first item that is no plain miss is a match, `all` when every item is one;
      the first failing item fails both, unless an earlier item has decided. */
  lemma {:induction false} QuantifyMeans(num: Numbers, all: bool, variable: string, body: Predicate, items: seq<Value>)
    ensures var m := Quantify(num, all, variable, body, items);
            && (m == Truth(all) <==>
                  forall k | 0 <= k < |items| :: ItemMeaning(num, variable, body, items[k]) == Truth(all))
            && (m != Truth(all) ==>
                  exists k | 0 <= k < |items| ::
                    && ItemMeaning(num, variable, body, items[k]) == m
                    && forall j | 0 <= j < k :: ItemMeaning(num, variable, body, items[j]) == Truth(all))
  {
    if items != [] {
      var m := Quantify(num, all, variable, body, items);
      var first := ItemMeaning(num, variable, body, items[0]);
      QuantifyMeans(num, all, variable, body, items[1..]);
      if first == Truth(all) {
        assert forall k | 0 < k < |items| :: items[k] == items[1..][k - 1];
        if m != Truth(all) {
          var k :| 0 <= k < |items[1..]| && ItemMeaning(num, variable, body, items[1..][k]) == m
                   && forall j | 0 <= j < k :: ItemMeaning(num, variable, body, items[1..][j]) == Truth(all);
          assert items[k + 1] == items[1..][k];
        }
      }
    }
  }

  // --- A filter as a statement ---

  predicate Comparable(left: Value, right: Value, op: Operator) {
    || (left.String? && right.String?)
    || (left.Number? && right.Number?)
    || (ByEquality(left, right) && (op == Eq || op == Ne))
  }

  ghost predicate Compares(left: Value, right: Value, op: Operator) {
    Comparable(left, right, op)
    && Relates(op,
               (left.String? && right.String? && Earlier(left.s, right.s))
               || (left.Number? && right.Number? && left.n < right.n),
               left == right)
  }

  /** What a lambda's body is judged on: its variable, and nothing else. */
  function Bound(variable: string, item: Value): Value {
    Object([(variable, item)])
  }

  /** What a filter says, in two-valued logic: a comparison or a call that cannot be made says nothing. */
  ghost predicate Says(num: Numbers, p: Predicate, v: Value)
    decreases p, 0
  {
    match p
    case Or(left, right) => Says(num, left, v) || Says(num, right, v)
    case And(left, right) => Says(num, left, v) && Says(num, right, v)
    case Compare(field, op, operand) =>
      exists a, b :: FieldValue(v, field) == Some(a) && OperandValue(num, operand, v) == Some(b) && Compares(a, b, op)
    case Call(fn, first, second) =>
      exists a, b ::
        OperandValue(num, first, v) == Some(String(a)) && OperandValue(num, second, v) == Some(String(b))
        && Holds(fn, a, b)
    case Lambda(all, variable, body) =>
      var tags := FieldValue(v, "tags");
      if tags.Some? && tags.value.Array? then SaysOfItems(num, all, variable, body, tags.value.items) else all
  }

  ghost predicate SaysOfItems(num: Numbers, all: bool, variable: string, body: Predicate, items: seq<Value>)
    decreases body, 1
  {
    if all then forall k | 0 <= k < |items| :: Says(num, body, Bound(variable, items[k]))
    else exists k | 0 <= k < |items| :: Says(num, body, Bound(variable, items[k]))
  }

  /** Whether its evaluation breaks off: what decides the whole first, from left to right, is not needed. */
  ghost predicate Breaks(num: Numbers, p: Predicate, v: Value)
    decreases p, 0
  {
    match p
    case Or(left, right) => Breaks(num, left, v) || (!Says(num, left, v) && Breaks(num, right, v))
    case And(left, right) => Breaks(num, left, v) || (Says(num, left, v) && Breaks(num, right, v))
    case Compare(field, op, operand) =>
      var a, b := FieldValue(v, field), OperandValue(num, operand, v);
      a.None? || b.None? || !Comparable(a.value, b.value, op)
    case Call(fn, first, second) =>
      var a, b := OperandValue(num, first, v), OperandValue(num, second, v);
      a.None? || b.None? || !a.value.String? || !b.value.String?
    case Lambda(all, variable, body) =>
      var tags := FieldValue(v, "tags");
      tags.None? || (tags.value.Array? && BreaksOnItems(num, all, variable, body, tags.value.items))
  }

  /** Some item breaks, and none before it breaks or decides. */
  ghost predicate BreaksOnItems(num: Numbers, all: bool, variable: string, body: Predicate, items: seq<Value>)
    decreases body, 1
  {
    exists k | 0 <= k < |items| ::
      && Breaks(num, body, Bound(variable, items[k]))
      && forall j | 0 <= j < k :: !Breaks(num, body, Bound(variable, items[j]))
                                  && (Says(num, body, Bound(variable, items[j])) <==> all)
  }

  lemma CompareIsStatement(num: Numbers, p: Predicate, v: Value)
    requires p.Compare?
    ensures Meaning(num, p, v) == if Breaks(num, p, v) then Fail else Truth(Says(num, p, v))
  {
    hide CompareValues, FieldValue, OperandValue, Earlier;
    var a, b := FieldValue(v, p.field), OperandValue(num, p.operand, v);
    if a.Some? && b.Some? {
      ComparisonsMean(a.value, b.value, p.op);
    }
  }

  lemma CallIsStatement(num: Numbers, p: Predicate, v: Value)
    requires p.Call?
    ensures Meaning(num, p, v) == if Breaks(num, p, v) then Fail else Truth(Says(num, p, v))
  {
    hide CallValues, OperandValue, Holds;
    var a, b := OperandValue(num, p.first, v), OperandValue(num, p.second, v);
    if a.Some? && b.Some? {
      CallsMean(p.fn, a.value, b.value);
    }
  }

  /** WHAT A FILTER MEANS, whole: where its evaluation breaks off it fails, and everywhere else it is the
      plain logic of its comparisons, calls, connectives and quantifiers. */
  lemma {:induction false} MeaningIsStatement(num: Numbers, p: Predicate, v: Value)
    ensures Meaning(num, p, v) == if Breaks(num, p, v) then Fail else Truth(Says(num, p, v))
    decreases p, 0
  {
    hide Meaning, Says, Breaks, Quantify;
    match p
    case Or(left, right) =>
      MeaningIsStatement(num, left, v);
      MeaningIsStatement(num, right, v);
      ConnectiveIsStatement(num, p, v);
    case And(left, right) =>
      MeaningIsStatement(num, left, v);
      MeaningIsStatement(num, right, v);
      ConnectiveIsStatement(num, p, v);
    case Compare(_, _, _) => CompareIsStatement(num, p, v);
    case Call(_, _, _) => CallIsStatement(num, p, v);
    case Lambda(all, variable, body) =>
      var tags := FieldValue(v, "tags");
      if tags.Some? && tags.value.Array? {
        ItemsAreStatements(num, all, variable, body, tags.value.items);
      }
      LambdaIsStatement(num, p, v);
  }

  ghost predicate IsStatement(num: Numbers, p: Predicate, v: Value) {
    Meaning(num, p, v) == if Breaks(num, p, v) then Fail else Truth(Says(num, p, v))
  }

  lemma ConnectiveIsStatement(num: Numbers, p: Predicate, v: Value)
    requires (p.Or? || p.And?) && IsStatement(num, p.left, v) && IsStatement(num, p.right, v)
    ensures IsStatement(num, p, v)
  {
    hide FieldValue, OperandValue, CompareValues, CallValues, Quantify;
  }

  lemma LambdaIsStatement(num: Numbers, p: Predicate, v: Value)
    requires p.Lambda?
    requires var tags := FieldValue(v, "tags");
             tags.Some? && tags.value.Array? ==>
               Quantify(num, p.all, p.variable, p.body, tags.value.items) ==
                 if BreaksOnItems(num, p.all, p.variable, p.body, tags.value.items) then Fail
                 else Truth(SaysOfItems(num, p.all, p.variable, p.body, tags.value.items))
    ensures IsStatement(num, p, v)
  {
    hide FieldValue, OperandValue, CompareValues, CallValues, Quantify, BreaksOnItems, SaysOfItems;
  }

  /** The loop over the tags, against what its lambda says of each. */
  lemma {:induction false} ItemsAreStatements(num: Numbers, all: bool, variable: string, body: Predicate,
                                              items: seq<Value>)
    ensures Quantify(num, all, variable, body, items) ==
              if BreaksOnItems(num, all, variable, body, items) then Fail
              else Truth(SaysOfItems(num, all, variable, body, items))
    decreases body, |items| + 1
  {
    hide Meaning, Says, Breaks, Quantify;
    QuantifyMeans(num, all, variable, body, items);
    forall k | 0 <= k < |items|
      ensures var bound := Bound(variable, items[k]);
              ItemMeaning(num, variable, body, items[k]) ==
                if Breaks(num, body, bound) then Fail else Truth(Says(num, body, bound))
    {
      MeaningIsStatement(num, body, Bound(variable, items[k]));
    }
  }

  /** Inside a lambda its variable stands for the item, a path from it for what is below, and no other name
      for anything. */
  lemma VariableIsItem(variable: string, item: Value, name: string)
    requires '/' !in variable && '/' !in name
    ensures EqualFold(variable, name) ==> FieldValue(Bound(variable, item), name) == Some(item)
    ensures !EqualFold(variable, name) && variable != "properties" ==> FieldValue(Bound(variable, item), name) == None
  {
    var fields := [(variable, item)];
    PlainFieldValue(fields, name);
    LookupFindsFirst(fields, name);
    assert Member(fields[1..], "properties") == None;
  }

  /** `field eq literal` holds of just the resources whose field is that very value. */
  lemma EqualsLiteral(num: Numbers, field: string, v: Value, text: string, b: bool)
    ensures Meaning(num, Compare(field, Eq, StringLiteral(text)), v) == Yes <==>
              FieldValue(v, field) == Some(String(text))
    ensures Meaning(num, Compare(field, Eq, BoolLiteral(b)), v) == Yes <==> FieldValue(v, field) == Some(Bool(b))
    ensures Meaning(num, Compare(field, Eq, NullLiteral), v) == Yes <==> FieldValue(v, field) == Some(Null)
    ensures num(text).Some? ==>
              (Meaning(num, Compare(field, Eq, NumberLiteral(text)), v) == Yes <==>
                 FieldValue(v, field) == Some(Number(num(text).value)))
  {
    hide FieldValue;
  }
}
