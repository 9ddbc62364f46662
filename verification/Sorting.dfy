/** Strings in order: `sort.Strings`, and the keys of a map as `json.Marshal` writes them. */
module Sorting {
  import opened GoStrings

  predicate Distinct(s: seq<string>) {
    forall i, j | 0 <= i < j < |s| :: s[i] != s[j]
  }

  predicate Before(a: string, b: string) {
    Compare(a, b) < 0
  }

  lemma {:induction false} CompareFlips(a: string, b: string)
    ensures Compare(a, b) == -Compare(b, a)
  {
    if a != "" && b != "" && a[0] == b[0] {
      CompareFlips(a[1..], b[1..]);
    }
  }

  lemma {:induction false} BeforeIsTransitive(a: string, b: string, c: string)
    requires Before(a, b) && Before(b, c)
    ensures Before(a, c)
  {
    if a != "" && a[0] == b[0] == c[0] {
      BeforeIsTransitive(a[1..], b[1..], c[1..]);
    }
  }

  predicate Ascending(s: seq<string>) {
    forall i, j | 0 <= i < j < |s| :: Before(s[i], s[j])
  }

  predicate SameElements(a: seq<string>, b: seq<string>) {
    (forall x | x in a :: x in b) && (forall x | x in b :: x in a)
  }

  function Insert(x: string, s: seq<string>): seq<string> {
    if s == [] || Compare(x, s[0]) <= 0 then [x] + s else [s[0]] + Insert(x, s[1..])
  }

  /** `sort.Strings`. */
  function Sort(s: seq<string>): seq<string> {
    if s == [] then [] else Insert(s[0], Sort(s[1..]))
  }

  lemma {:induction false} InsertHolds(x: string, s: seq<string>)
    ensures forall y :: y in Insert(x, s) <==> y == x || y in s
  {
    if s != [] && Compare(x, s[0]) > 0 {
      InsertHolds(x, s[1..]);
      assert s == [s[0]] + s[1..];
    }
  }

  lemma {:induction false} InsertAscends(x: string, s: seq<string>)
    requires Ascending(s) && x !in s
    ensures Ascending(Insert(x, s))
  {
    hide Compare;
    if s != [] {
      if Compare(x, s[0]) > 0 {
        var t := Insert(x, s[1..]);
        InsertAscends(x, s[1..]);
        InsertHolds(x, s[1..]);
        CompareFlips(x, s[0]);
        forall j | 0 <= j < |t| ensures Before(s[0], t[j]) {
          assert t[j] in t;
          if t[j] != x {
            var k :| 0 <= k < |s[1..]| && s[1..][k] == t[j];
            assert s[k + 1] == t[j];
          }
        }
      } else {
        assert x != s[0];
        forall j | 0 < j < |s| ensures Before(x, s[j]) {
          BeforeIsTransitive(x, s[0], s[j]);
        }
      }
    }
  }

  lemma {:induction false} SortHolds(s: seq<string>)
    ensures SameElements(Sort(s), s)
  {
    if s != [] {
      SortHolds(s[1..]);
      InsertHolds(s[0], Sort(s[1..]));
      assert s == [s[0]] + s[1..];
    }
  }

  lemma {:induction false} SortAscends(s: seq<string>)
    requires Distinct(s)
    ensures Ascending(Sort(s))
  {
    if s != [] {
      SortAscends(s[1..]);
      SortHolds(s[1..]);
      assert s[0] !in s[1..];
      InsertAscends(s[0], Sort(s[1..]));
    }
  }

  lemma AscendingTail(s: seq<string>)
    requires Ascending(s) && s != []
    ensures Ascending(s[1..]) && s[0] !in s[1..]
  {
    forall k | 0 <= k < |s[1..]| ensures s[1..][k] != s[0] {
      assert s[1..][k] == s[k + 1] && Before(s[0], s[k + 1]);
    }
  }

  lemma FirstIsLeast(s: seq<string>, x: string)
    requires Ascending(s) && x in s
    ensures s[0] == x || Before(s[0], x)
  {
  }

  /** Two ascending sequences of the same strings are the same. */
  lemma {:induction false} AscendingIsUnique(a: seq<string>, b: seq<string>)
    requires Ascending(a) && Ascending(b) && SameElements(a, b)
    ensures a == b
  {
    if b != [] {
      assert b[0] in b;
    }
    if a != [] {
      assert a[0] in a;
      FirstIsLeast(a, b[0]);
      FirstIsLeast(b, a[0]);
      CompareFlips(a[0], b[0]);
      AscendingTail(a);
      AscendingTail(b);
      assert a == [a[0]] + a[1..] && b == [b[0]] + b[1..];
      forall x ensures x in a[1..] <==> x in b[1..] {
        assert x in a <==> x == a[0] || x in a[1..];
        assert x in b <==> x == b[0] || x in b[1..];
      }
      AscendingIsUnique(a[1..], b[1..]);
    }
  }

  // --- Keys in order ---

  predicate IsLeast(least: string, keys: set<string>) {
    least in keys && forall k | k in keys && k != least :: Before(least, k)
  }

  lemma {:induction false} LeastExists(keys: set<string>)
    requires keys != {}
    ensures exists least :: IsLeast(least, keys)
    decreases |keys|
  {
    var one :| one in keys;
    var rest := keys - {one};
    assert keys == rest + {one};
    if rest == {} {
      assert IsLeast(one, keys);
    } else {
      LeastExists(rest);
      var other :| IsLeast(other, rest);
      CompareFlips(one, other);
      if Before(other, one) {
        assert IsLeast(other, keys);
      } else {
        forall k | k in rest && k != other ensures Before(one, k) {
          BeforeIsTransitive(one, other, k);
        }
        assert IsLeast(one, keys);
      }
    }
  }

  lemma LeastIsUnique(a: string, b: string, keys: set<string>)
    requires IsLeast(a, keys) && IsLeast(b, keys)
    ensures a == b
  {
    CompareFlips(a, b);
  }

  function Least(keys: set<string>): (least: string)
    requires keys != {}
    ensures IsLeast(least, keys)
  {
    LeastExists(keys);
    assert forall a, b | IsLeast(a, keys) && IsLeast(b, keys) :: a == b by {
      forall a, b | IsLeast(a, keys) && IsLeast(b, keys) ensures a == b {
        LeastIsUnique(a, b, keys);
      }
    }
    var least :| IsLeast(least, keys);
    least
  }

  function SortedKeys(keys: set<string>): (s: seq<string>)
    ensures Ascending(s) && forall k :: k in s <==> k in keys
    decreases |keys|
  {
    if keys == {} then []
    else
      var least := Least(keys);
      var rest := SortedKeys(keys - {least});
      assert forall k | 0 <= k < |rest| :: rest[k] in rest && Before(least, rest[k]);
      [least] + rest
  }

  lemma SortedKey(key: string)
    ensures SortedKeys({key}) == [key]
  {
  }
}
