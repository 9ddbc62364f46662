/** What Go's JSON decoder makes of a document, as decodeDocument in internal/arm/handler.go uses it: the
    document is written out with its keys in order, and read again into a struct of string pointers. Keys
    are matched in any case, each in its turn. */
module Decoding {
  import opened Wrappers
  import opened GoStrings
  import opened Sorting
  import opened Documents

  /** A value read into a `*string`: a string is stored, a null clears the pointer, and anything else
      makes room for a string before it is found not to be one. */
  function Assigned(text: Option<string>, value: Json): Option<string> {
    match value
    case String(s) => Some(s)
    case Null => None
    case _ => Some(if text.Some? then text.value else "")
  }

  /** The members of these keys read into one field, in turn. */
  function FieldOf(keys: seq<string>, members: Fields, name: string, text: Option<string>): Option<string>
    requires forall k | k in keys :: k in members
  {
    if keys == [] then text
    else
      FieldOf(keys[1..], members, name,
              if EqualFold(keys[0], name) then Assigned(text, members[keys[0]]) else text)
  }

  function ReadField(members: Fields, name: string, text: Option<string>): Option<string> {
    FieldOf(SortedKeys(members.Keys), members, name, text)
  }

  /** The same one level down: every member that goes by the struct's name and is an object is read into
      the one struct. */
  function NestedOf(keys: seq<string>, document: Fields, group: string, name: string,
                    text: Option<string>): Option<string>
    requires forall k | k in keys :: k in document
  {
    if keys == [] then text
    else
      var value := document[keys[0]];
      NestedOf(keys[1..], document, group, name,
               if EqualFold(keys[0], group) && value.Object? then ReadField(value.fields, name, text) else text)
  }

  function ReadNested(document: Fields, group: string, name: string): Option<string> {
    NestedOf(SortedKeys(document.Keys), document, group, name, None)
  }

  // --- Documents that spell a name in one way ---

  /** No other key goes by this name. */
  predicate OnlyKey(members: Fields, name: string, key: string) {
    forall k | k in members && EqualFold(k, name) :: k == key
  }

  lemma {:induction false} FieldOfOnly(keys: seq<string>, members: Fields, name: string, key: string,
                                       text: Option<string>)
    requires Ascending(keys) && (forall k | k in keys :: k in members)
    requires OnlyKey(members, name, key) && EqualFold(key, name)
    ensures FieldOf(keys, members, name, text) == if key in keys then Assigned(text, members[key]) else text
  {
    if keys != [] {
      AscendingTail(keys);
      assert keys == [keys[0]] + keys[1..];
      var next := if EqualFold(keys[0], name) then Assigned(text, members[keys[0]]) else text;
      FieldOfOnly(keys[1..], members, name, key, next);
    }
  }

  lemma {:induction false} NestedOfOnly(keys: seq<string>, document: Fields, group: string, name: string,
                                        text: Option<string>)
    requires Ascending(keys) && (forall k | k in keys :: k in document) && OnlyKey(document, group, group)
    ensures NestedOf(keys, document, group, name, text)
         == if group in keys && document[group].Object? then ReadField(document[group].fields, name, text) else text
  {
    if keys != [] {
      AscendingTail(keys);
      assert keys == [keys[0]] + keys[1..];
      var value := document[keys[0]];
      var next := if EqualFold(keys[0], group) && value.Object? then ReadField(value.fields, name, text) else text;
      NestedOfOnly(keys[1..], document, group, name, next);
    }
  }

  /** Where one key alone goes by a name, the decoder reads that member, in whichever case it is spelled. */
  lemma ReadOnlyKey(document: Fields, group: string, name: string, key: string)
    requires OnlyKey(document, group, group) && EqualFold(key, name)
    requires group in document && document[group].Object? ==> OnlyKey(document[group].fields, name, key)
    ensures ReadNested(document, group, name)
         == if group in document && document[group].Object? && key in document[group].fields
            then Assigned(None, document[group].fields[key]) else None
  {
    NestedOfOnly(SortedKeys(document.Keys), document, group, name, None);
    if group in document && document[group].Object? {
      var members := document[group].fields;
      FieldOfOnly(SortedKeys(members.Keys), members, name, key, None);
    }
  }

  // --- Names spelled in several ways ---

  lemma {:induction false} FieldOfBoth(a: seq<string>, b: seq<string>, members: Fields, name: string,
                                       text: Option<string>)
    requires forall k | k in a + b :: k in members
    ensures FieldOf(a + b, members, name, text) == FieldOf(b, members, name, FieldOf(a, members, name, text))
  {
    if a == [] {
      assert a + b == b;
    } else {
      assert (a + b)[0] == a[0] && (a + b)[1..] == a[1..] + b;
      FieldOfBoth(a[1..], b, members, name,
                  if EqualFold(a[0], name) then Assigned(text, members[a[0]]) else text);
    }
  }

  lemma {:induction false} FieldOfOthers(keys: seq<string>, members: Fields, name: string, text: Option<string>)
    requires forall k | k in keys :: k in members && !EqualFold(k, name)
    ensures FieldOf(keys, members, name, text) == text
  {
    if keys != [] {
      FieldOfOthers(keys[1..], members, name, text);
    }
  }

  /** The last of the keys, in byte order, that go by this name. */
  ghost predicate LastSpelling(members: Fields, name: string, key: string) {
    key in members && EqualFold(key, name)
    && forall k | k in members && EqualFold(k, name) && k != key :: Before(k, key)
  }

  lemma AfterLastSpelling(members: Fields, name: string, key: string) returns (a: seq<string>, b: seq<string>)
    requires LastSpelling(members, name, key)
    ensures SortedKeys(members.Keys) == a + ([key] + b)
    ensures forall k | k in b :: k in members && !EqualFold(k, name)
  {
    hide EqualFold, Compare, SortedKeys;
    var keys := SortedKeys(members.Keys);
    var n :| 0 <= n < |keys| && keys[n] == key;
    a, b := keys[..n], keys[n + 1..];
    forall k | k in b ensures k in members && !EqualFold(k, name) {
      var i :| 0 <= i < |b| && b[i] == k;
      assert keys[n + 1 + i] == k;
      CompareFlips(key, k);
    }
  }

  /** OF SEVERAL SPELLINGS THE LAST DECIDES: its string is read, its null clears the field, and anything else
      leaves some string there. */
  lemma LastSpellingDecides(members: Fields, name: string, key: string, text: Option<string>)
    requires LastSpelling(members, name, key)
    ensures var read := ReadField(members, name, text);
            && (members[key].String? ==> read == Some(members[key].s))
            && (members[key].Null? ==> read == None)
            && (!members[key].String? && !members[key].Null? ==> read.Some?)
  {
    hide EqualFold, FieldOf, SortedKeys;
    var a, b := AfterLastSpelling(members, name, key);
    FieldOfBoth(a, [key] + b, members, name, text);
    FieldOfHead(key, b, members, name, FieldOf(a, members, name, text));
    FieldOfOthers(b, members, name, Assigned(FieldOf(a, members, name, text), members[key]));
  }

  lemma FieldOfHead(key: string, b: seq<string>, members: Fields, name: string, text: Option<string>)
    requires (forall k | k in [key] + b :: k in members) && EqualFold(key, name)
    ensures forall k | k in b :: k in members
    ensures FieldOf([key] + b, members, name, text) == FieldOf(b, members, name, Assigned(text, members[key]))
  {
    assert ([key] + b)[1..] == b;
    assert forall k | k in b :: k in [key] + b;
  }

  lemma {:induction false} NestedOfBoth(a: seq<string>, b: seq<string>, document: Fields, group: string, name: string,
                                        text: Option<string>)
    requires forall k | k in a + b :: k in document
    ensures NestedOf(a + b, document, group, name, text)
         == NestedOf(b, document, group, name, NestedOf(a, document, group, name, text))
  {
    if a == [] {
      assert a + b == b;
    } else {
      assert (a + b)[0] == a[0] && (a + b)[1..] == a[1..] + b;
      var value := document[a[0]];
      NestedOfBoth(a[1..], b, document, group, name,
                   if EqualFold(a[0], group) && value.Object? then ReadField(value.fields, name, text) else text);
    }
  }

  lemma {:induction false} NestedOfOthers(keys: seq<string>, document: Fields, group: string, name: string,
                                          text: Option<string>)
    requires forall k | k in keys :: k in document && !EqualFold(k, group)
    ensures NestedOf(keys, document, group, name, text) == text
  {
    if keys != [] {
      NestedOfOthers(keys[1..], document, group, name, text);
    }
  }

  lemma NestedOfHead(g: string, b: seq<string>, document: Fields, group: string, name: string, text: Option<string>)
    requires (forall k | k in [g] + b :: k in document) && EqualFold(g, group) && document[g].Object?
    ensures forall k | k in b :: k in document
    ensures NestedOf([g] + b, document, group, name, text)
         == NestedOf(b, document, group, name, ReadField(document[g].fields, name, text))
  {
    assert ([g] + b)[1..] == b;
    assert forall k | k in b :: k in [g] + b;
  }

  /** So with the groups: the last spelling of the name in the last spelling of the group decides, if both
      are there. */
  lemma LastGroupDecides(document: Fields, group: string, g: string, name: string, key: string)
    requires LastSpelling(document, group, g) && document[g].Object? && LastSpelling(document[g].fields, name, key)
    ensures var value, read := document[g].fields[key], ReadNested(document, group, name);
            && (value.String? ==> read == Some(value.s))
            && (value.Null? ==> read == None)
            && (!value.String? && !value.Null? ==> read.Some?)
  {
    hide EqualFold, NestedOf, SortedKeys, ReadField;
    var a, b := AfterLastSpelling(document, group, g);
    NestedOfBoth(a, [g] + b, document, group, name, None);
    var before := NestedOf(a, document, group, name, None);
    NestedOfHead(g, b, document, group, name, before);
    NestedOfOthers(b, document, group, name, ReadField(document[g].fields, name, before));
    LastSpellingDecides(document[g].fields, name, key, before);
  }
}
