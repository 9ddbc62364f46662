/** The order of an object's members. Go visits a map in an order of its own; a filter has one outcome over
    all of them, at every depth of a resource in which no two members of an object go by one name. */
module FilterOrder {
  import opened Wrappers
  import opened GoStrings
  import opened Filter
  import D = Documents
  import M = FilterMeaning

  /** The value lists what the JSON holds: each object's members, in some order, each once. */
  ghost predicate Lists(v: Value, json: D.Json)
    decreases v
  {
    match v
    case Null => json == D.Null
    case Bool(b) => json == D.Bool(b)
    case Number(n) => json == D.Number(n)
    case String(s) => json == D.String(s)
    case Array(items) =>
      json.Array? && |json.items| == |items| && forall k | 0 <= k < |items| :: Lists(items[k], json.items[k])
    case Object(fields) =>
      && json.Object? && |fields| == |json.fields|
      && (forall k | 0 <= k < |fields| :: fields[k].0 in json.fields && Lists(fields[k].1, json.fields[fields[k].0]))
      && (forall key | key in json.fields :: exists k | 0 <= k < |fields| :: fields[k].0 == key)
  }

  /** No two members of any object go by one name. */
  ghost predicate Clear(json: D.Json)
    decreases json
  {
    match json
    case Array(items) => forall k | 0 <= k < |items| :: Clear(items[k])
    case Object(fields) =>
      && (forall a, b | a in fields && b in fields && EqualFold(a, b) :: a == b)
      && (forall key | key in fields :: Clear(fields[key]))
    case _ => true
  }

  /** Two listings of the same JSON. */
  ghost predicate Alike(v: Value, w: Value) {
    exists json :: Clear(json) && Lists(v, json) && Lists(w, json)
  }

  ghost predicate BothAlike(v: Option<Value>, w: Option<Value>) {
    (v.None? && w.None?) || (v.Some? && w.Some? && Alike(v.value, w.value))
  }

  // --- Lookups ---

  lemma ObjectLists(fields: seq<(string, Value)>, json: D.Json, k: nat)
    requires Lists(Object(fields), json) && k < |fields|
    ensures json.Object? && fields[k].0 in json.fields && Lists(fields[k].1, json.fields[fields[k].0])
  {
  }

  lemma LookupLists(fields: seq<(string, Value)>, json: D.Json, name: string)
    requires Lists(Object(fields), json)
    ensures json.Object?
    ensures Lookup(fields, name).None? ==> forall key | key in json.fields :: !EqualFold(key, name)
    ensures Lookup(fields, name).Some? ==>
              exists key | key in json.fields ::
                EqualFold(key, name) && Lists(Lookup(fields, name).value, json.fields[key])
  {
    M.LookupFindsFirst(fields, name);
    M.LookupIsMember(fields, name);
    if Lookup(fields, name).Some? {
      var k :| 0 <= k < |fields| && EqualFold(fields[k].0, name) && fields[k].1 == Lookup(fields, name).value;
      ObjectLists(fields, json, k);
    }
  }

  lemma LookupAlike(f: seq<(string, Value)>, g: seq<(string, Value)>, name: string)
    requires Alike(Object(f), Object(g))
    ensures BothAlike(Lookup(f, name), Lookup(g, name))
  {
    hide Lookup, Lists, Clear;
    var json :| Clear(json) && Lists(Object(f), json) && Lists(Object(g), json);
    LookupLists(f, json, name);
    LookupLists(g, json, name);
    if Lookup(f, name).Some? && Lookup(g, name).Some? {
      var a :| a in json.fields && EqualFold(a, name) && Lists(Lookup(f, name).value, json.fields[a]);
      var b :| b in json.fields && EqualFold(b, name) && Lists(Lookup(g, name).value, json.fields[b]);
      ClearMember(json, a, b);
      assert Alike(Lookup(f, name).value, Lookup(g, name).value);
    }
  }

  lemma ClearMember(json: D.Json, a: string, b: string)
    requires Clear(json) && json.Object? && a in json.fields && b in json.fields
    ensures Clear(json.fields[a]) && (EqualFold(a, b) ==> a == b)
  {
  }

  lemma {:induction false} MemberIsOne(fields: seq<(string, Value)>, name: string)
    ensures Member(fields, name).Some? ==>
              exists k | 0 <= k < |fields| :: fields[k].0 == name && fields[k].1 == Member(fields, name).value
    ensures Member(fields, name).None? ==> forall k | 0 <= k < |fields| :: fields[k].0 != name
  {
    if fields != [] && fields[0].0 != name {
      MemberIsOne(fields[1..], name);
      assert forall k | 0 <= k < |fields| - 1 :: fields[1..][k] == fields[k + 1];
      assert forall k | 0 < k < |fields| :: fields[k] == fields[1..][k - 1];
    }
  }

  lemma MemberLists(fields: seq<(string, Value)>, json: D.Json, name: string)
    requires Lists(Object(fields), json)
    ensures json.Object? && (Member(fields, name).Some? <==> name in json.fields)
    ensures Member(fields, name).Some? ==> Lists(Member(fields, name).value, json.fields[name])
  {
    MemberIsOne(fields, name);
    if Member(fields, name).Some? {
      var k :| 0 <= k < |fields| && fields[k].0 == name && fields[k].1 == Member(fields, name).value;
      ObjectLists(fields, json, k);
    }
  }

  lemma MemberAlike(f: seq<(string, Value)>, g: seq<(string, Value)>, name: string)
    requires Alike(Object(f), Object(g))
    ensures BothAlike(Member(f, name), Member(g, name))
  {
    hide Member, Lists, Clear;
    var json :| Clear(json) && Lists(Object(f), json) && Lists(Object(g), json);
    MemberLists(f, json, name);
    MemberLists(g, json, name);
    if name in json.fields {
      ClearMember(json, name, name);
      assert Alike(Member(f, name).value, Member(g, name).value);
    }
  }

  // --- Paths ---

  /** Alike values are of one kind, and the same where they are neither arrays nor objects. */
  lemma AlikeKinds(v: Value, w: Value)
    requires Alike(v, w)
    ensures v.Object? <==> w.Object?
    ensures v.Array? <==> w.Array?
    ensures !v.Object? && !v.Array? ==> v == w
  {
    var json :| Clear(json) && Lists(v, json) && Lists(w, json);
  }

  lemma SegmentAlike(v: Value, w: Value, part: string, first: bool)
    requires Alike(v, w)
    ensures BothAlike(Segment(v, part, first), Segment(w, part, first))
  {
    hide Lookup, Member, Alike;
    AlikeKinds(v, w);
    if v.Object? {
      LookupAlike(v.fields, w.fields, part);
      MemberAlike(v.fields, w.fields, "properties");
      var p, q := Member(v.fields, "properties"), Member(w.fields, "properties");
      if p.Some? {
        AlikeKinds(p.value, q.value);
        if p.value.Object? {
          LookupAlike(p.value.fields, q.value.fields, part);
        }
      }
    }
  }

  lemma {:induction false} WalkAlike(v: Value, w: Value, parts: seq<string>, first: bool)
    requires Alike(v, w)
    ensures BothAlike(Walk(v, parts, first), Walk(w, parts, first))
    decreases |parts|
  {
    hide Segment, Alike;
    if parts != [] {
      SegmentAlike(v, w, parts[0], first);
      if Segment(v, parts[0], first).Some? {
        WalkAlike(Segment(v, parts[0], first).value, Segment(w, parts[0], first).value, parts[1..], false);
      }
    }
  }

  lemma FieldAlike(v: Value, w: Value, name: string)
    requires Alike(v, w)
    ensures BothAlike(FieldValue(v, name), FieldValue(w, name))
  {
    WalkAlike(v, w, SplitAt(name, '/'), true);
  }

  lemma {:induction false} SelfListing(v: Value)
    requires !v.Object? && !v.Array?
    ensures Alike(v, v)
  {
    var json := match v
                case Bool(b) => D.Bool(b)
                case Number(n) => D.Number(n)
                case String(s) => D.String(s)
                case _ => D.Null;
    assert Clear(json) && Lists(v, json);
  }

  lemma OperandAlike(num: Numbers, operand: Operand, v: Value, w: Value)
    requires Alike(v, w)
    ensures BothAlike(OperandValue(num, operand, v), OperandValue(num, operand, w))
  {
    hide Alike, FieldValue;
    match operand
    case Field(name) => FieldAlike(v, w, name);
    case _ => SelfListing(OperandValue(num, operand, v).value);
  }

  // --- Filters ---

  lemma CompareAlike(a: Value, b: Value, c: Value, d: Value, op: Operator)
    requires Alike(a, b) && Alike(c, d)
    ensures CompareValues(a, c, op) == CompareValues(b, d, op)
  {
    hide Alike, GoStrings.Compare, Ordered;
    AlikeKinds(a, b);
    AlikeKinds(c, d);
  }

  lemma CallAlike(fn: Function, a: Value, b: Value, c: Value, d: Value)
    requires Alike(a, b) && Alike(c, d)
    ensures CallValues(fn, a, c) == CallValues(fn, b, d)
  {
    hide Alike, GoStrings.Contains, HasSuffix;
    AlikeKinds(a, b);
    AlikeKinds(c, d);
  }

  ghost predicate ItemsAlike(a: seq<Value>, b: seq<Value>) {
    |a| == |b| && forall k | 0 <= k < |a| :: Alike(a[k], b[k])
  }

  lemma ArrayAlike(a: seq<Value>, b: seq<Value>)
    requires Alike(Array(a), Array(b))
    ensures ItemsAlike(a, b)
  {
    var json :| Clear(json) && Lists(Array(a), json) && Lists(Array(b), json);
    forall k | 0 <= k < |a| ensures Alike(a[k], b[k]) {
      assert Clear(json.items[k]) && Lists(a[k], json.items[k]) && Lists(b[k], json.items[k]);
    }
  }

  /** What a lambda is judged on: an object of one member. */
  lemma ItemAlike(variable: string, v: Value, w: Value)
    requires Alike(v, w)
    ensures Alike(Object([(variable, v)]), Object([(variable, w)]))
  {
    var json :| Clear(json) && Lists(v, json) && Lists(w, json);
    var wrapped := D.Object(map[variable := json]);
    assert wrapped.fields.Keys == {variable} && |wrapped.fields.Keys| == 1;
    forall u | u == v || u == w ensures Lists(Object([(variable, u)]), wrapped) {
      var fields := [(variable, u)];
      assert fields[0].0 == variable && Lists(fields[0].1, wrapped.fields[variable]);
    }
    assert Clear(wrapped);
  }

  /** THE ORDER OF MEMBERS DOES NOT MATTER to a filter: it has one outcome over all listings of a resource
      in which no two members of an object go by one name. */
  lemma {:induction false} MeaningIgnoresOrder(num: Numbers, p: Predicate, v: Value, w: Value)
    requires Alike(v, w)
    ensures Meaning(num, p, v) == Meaning(num, p, w)
    decreases p, 0
  {
    hide Alike, FieldValue, OperandValue, CompareValues, CallValues;
    match p
    case Or(left, right) =>
      MeaningIgnoresOrder(num, left, v, w);
      MeaningIgnoresOrder(num, right, v, w);
    case And(left, right) =>
      MeaningIgnoresOrder(num, left, v, w);
      MeaningIgnoresOrder(num, right, v, w);
    case Compare(field, op, operand) =>
      FieldAlike(v, w, field);
      OperandAlike(num, operand, v, w);
      var a, b := FieldValue(v, field), FieldValue(w, field);
      var c, d := OperandValue(num, operand, v), OperandValue(num, operand, w);
      if a.Some? && c.Some? {
        CompareAlike(a.value, b.value, c.value, d.value, op);
      }
    case Call(fn, first, second) =>
      OperandAlike(num, first, v, w);
      OperandAlike(num, second, v, w);
      var a, b := OperandValue(num, first, v), OperandValue(num, first, w);
      var c, d := OperandValue(num, second, v), OperandValue(num, second, w);
      if a.Some? && c.Some? {
        CallAlike(fn, a.value, b.value, c.value, d.value);
      }
    case Lambda(all, variable, body) =>
      FieldAlike(v, w, "tags");
      var a, b := FieldValue(v, "tags"), FieldValue(w, "tags");
      if a.Some? {
        AlikeKinds(a.value, b.value);
        if a.value.Array? {
          ArrayAlike(a.value.items, b.value.items);
          QuantifyIgnoresOrder(num, all, variable, body, a.value.items, b.value.items);
        }
      }
  }

  lemma {:induction false} QuantifyIgnoresOrder(num: Numbers, all: bool, variable: string, body: Predicate,
                                                a: seq<Value>, b: seq<Value>)
    requires ItemsAlike(a, b)
    ensures Quantify(num, all, variable, body, a) == Quantify(num, all, variable, body, b)
    decreases body, |a| + 1
  {
    hide Alike, Meaning;
    if a != [] {
      ItemAlike(variable, a[0], b[0]);
      MeaningIgnoresOrder(num, body, Object([(variable, a[0])]), Object([(variable, b[0])]));
      QuantifyIgnoresOrder(num, all, variable, body, a[1..], b[1..]);
    }
  }
}
