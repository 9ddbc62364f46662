/** JSON merge, internal/arm/handler.go: `mergeObject` against MergePatch of section 2 of RFC 7396. */
module Documents {
  import opened Wrappers

  datatype Json =
    | Null
    | Bool(b: bool)
    | Number(n: real)
    | String(s: string)
    | Array(items: seq<Json>)
    | Object(fields: map<string, Json>)

  type Fields = map<string, Json>

  /** The target after merging: each member of the patch removes, merges into, or replaces. */
  function Merge(target: Fields, patch: Fields): Fields
    decreases Object(patch), 0
  {
    map key | key in target.Keys + patch.Keys && !(key in patch && patch[key].Null?) ::
      if key !in patch then target[key] else MergeMember(target, key, patch[key])
  }

  /** What a patch member that is not null puts under its key. */
  function MergeMember(target: Fields, key: string, value: Json): Json
    decreases value, 1
  {
    if value.Object? && key in target && target[key].Object? then Object(Merge(target[key].fields, value.fields))
    else value
  }

  /** `mergeObject`. The loop takes the patch's keys in any order, at every level; the result does not
      depend on it. */
  method MergeObject(target: Fields, patch: Fields) returns (merged: Fields)
    ensures merged == Merge(target, patch)
    decreases Object(patch)
  {
    merged := target;
    var left := patch.Keys;
    while left != {}
      invariant left <= patch.Keys
      invariant forall key :: key in merged <==>
                  if key in patch && key !in left then !patch[key].Null? else key in target
      invariant forall key | key in merged ::
                  merged[key] == if key in patch && key !in left then MergeMember(target, key, patch[key])
                                 else target[key]
    {
      var key :| key in left;
      left := left - {key};
      var value := patch[key];
      if value.Null? {
        merged := merged - {key};
      } else if value.Object? && key in merged && merged[key].Object? {
        var nested := MergeObject(merged[key].fields, value.fields);
        merged := merged[key := Object(nested)];
      } else {
        merged := merged[key := value];
      }
    }
  }

  // --- What each member becomes ---

  /** The four ways of a member. */
  lemma MemberOfMerge(target: Fields, patch: Fields, key: string)
    ensures key in Merge(target, patch) <==> if key in patch then !patch[key].Null? else key in target
    ensures key in target && key !in patch ==> Merge(target, patch)[key] == target[key]
    ensures key in patch && !patch[key].Null? && !(patch[key].Object? && key in target && target[key].Object?) ==>
              Merge(target, patch)[key] == patch[key]
    ensures key in patch && patch[key].Object? && key in target && target[key].Object? ==>
              Merge(target, patch)[key] == Object(Merge(target[key].fields, patch[key].fields))
  {
  }

  /** What a document holds at a path of member names. */
  function At(value: Json, path: seq<string>): Option<Json> {
    if path == [] then Some(value)
    else if value.Object? && path[0] in value.fields then At(value.fields[path[0]], path[1..])
    else None
  }

  predicate ObjectAt(value: Json, path: seq<string>) {
    At(value, path).Some? && At(value, path).value.Object?
  }

  lemma AtPrefix(fields: Fields, path: seq<string>, n: nat)
    requires 0 < n <= |path|
    ensures At(Object(fields), path[..n]) ==
              if path[0] in fields then At(fields[path[0]], path[1..][..n - 1]) else None
  {
    assert path[..n][1..] == path[1..][..n - 1];
  }

  /** WHAT A MERGE LEAVES AT EVERY PATH. Follow the path while both documents hold objects, and take one
      step more. If the patch holds nothing there, the path leads to what it led to in the target; if it holds
      a null, to nothing; if it holds anything that meets no object or is none, to what it leads to in the
      patch, nulls included. */
  lemma {:induction false} MergeAtPath(target: Fields, patch: Fields, path: seq<string>, n: nat)
    requires 0 < n <= |path| && ObjectAt(Object(target), path[..n - 1]) && ObjectAt(Object(patch), path[..n - 1])
    ensures var told, merged := At(Object(patch), path[..n]), At(Object(Merge(target, patch)), path);
            && (told.None? ==> merged == At(Object(target), path))
            && (told == Some(Null) ==> merged == None)
            && (told.Some? && !told.value.Null? && !(told.value.Object? && ObjectAt(Object(target), path[..n])) ==>
                  merged == At(Object(patch), path))
    decreases n
  {
    hide Merge;
    var key := path[0];
    MemberOfMerge(target, patch, key);
    AtPrefix(target, path, n);
    AtPrefix(patch, path, n);
    assert path[..|path|] == path;
    if n > 1 {
      AtPrefix(target, path, n - 1);
      AtPrefix(patch, path, n - 1);
      StartsAtObject(patch[key], path[1..][..n - 2]);
      StartsAtObject(target[key], path[1..][..n - 2]);
      MergeAtPath(target[key].fields, patch[key].fields, path[1..], n - 1);
    }
  }

  lemma StartsAtObject(value: Json, path: seq<string>)
    requires ObjectAt(value, path)
    ensures value.Object?
  {
  }

  // --- RFC 7396, section 2 ---

  /** MergePatch of a target value and a patch value. */
  function MergePatch(target: Json, patch: Json): Json
    decreases patch
  {
    if !patch.Object? then patch
    else
      var base := if target.Object? then target.fields else map[];
      Object(map key | key in base.Keys + patch.fields.Keys && !(key in patch.fields && patch.fields[key].Null?) ::
               if key !in patch.fields then base[key]
               else MergePatch(if key in base then base[key] else Null, patch.fields[key]))
  }

  /** No null at any object depth; what arrays hold is not looked at. */
  predicate NullFree(value: Json) {
    value.Object? ==> forall key | key in value.fields :: !value.fields[key].Null? && NullFree(value.fields[key])
  }

  /** Every object of the patch that lands on a missing or non-object member is free of nulls. */
  predicate LandsClean(target: Fields, patch: Fields)
    decreases Object(patch), 0
  {
    forall key | key in patch && patch[key].Object? :: MemberLandsClean(target, key, patch[key])
  }

  predicate MemberLandsClean(target: Fields, key: string, value: Json)
    requires value.Object?
    decreases value, 1
  {
    if key in target && target[key].Object? then LandsClean(target[key].fields, value.fields) else NullFree(value)
  }

  /** Replacing nothing by an object keeps it as it is just when it has no nulls to drop. */
  lemma {:induction false} MergePatchOntoNothing(target: Json, value: Json)
    requires !target.Object?
    ensures MergePatch(target, value) == value <==> NullFree(value)
    decreases value
  {
    if value.Object? {
      var result := MergePatch(target, value).fields;
      forall key | key in value.fields
        ensures MergePatch(Null, value.fields[key]) == value.fields[key] <==> NullFree(value.fields[key])
      {
        MergePatchOntoNothing(Null, value.fields[key]);
      }
      if NullFree(value) {
        assert result == value.fields;
      } else {
        var key :| key in value.fields && (value.fields[key].Null? || !NullFree(value.fields[key]));
        assert result == value.fields ==> key in result;
      }
    }
  }

  lemma MergePatchAt(target: Fields, patch: Fields, key: string)
    requires key in patch && !patch[key].Null?
    ensures var result := MergePatch(Object(target), Object(patch)).fields;
            key in result && result[key] == MergePatch(if key in target then target[key] else Null, patch[key])
  {
  }

  lemma MergeAt(target: Fields, patch: Fields, key: string)
    requires key in patch && !patch[key].Null?
    ensures key in Merge(target, patch) && Merge(target, patch)[key] == MergeMember(target, key, patch[key])
  {
  }

  /** MERGE AGREES WITH RFC 7396 exactly when the patch lands clean. */
  lemma {:induction false} MergeIsMergePatch(target: Fields, patch: Fields)
    ensures MergePatch(Object(target), Object(patch)) == Object(Merge(target, patch)) <==> LandsClean(target, patch)
    decreases Object(patch)
  {
    var ours, theirs := Merge(target, patch), MergePatch(Object(target), Object(patch)).fields;
    assert ours.Keys == theirs.Keys;
    forall key | key in patch && patch[key].Object?
      ensures key in ours && key in theirs
      ensures theirs[key] == ours[key] <==> MemberLandsClean(target, key, patch[key])
    {
      MergePatchAt(target, patch, key);
      MergeAt(target, patch, key);
      if key in target && target[key].Object? {
        MergeIsMergePatch(target[key].fields, patch[key].fields);
        assert target[key] == Object(target[key].fields) && patch[key] == Object(patch[key].fields);
      } else {
        MergePatchOntoNothing(if key in target then target[key] else Null, patch[key]);
      }
    }
    if LandsClean(target, patch) {
      forall key | key in ours ensures theirs[key] == ours[key] {
        if key in patch {
          MergePatchAt(target, patch, key);
          MergeAt(target, patch, key);
        }
      }
      assert theirs == ours;
    }
  }

  // --- Merging twice ---

  lemma {:induction false} MergeOntoItself(fields: Fields)
    ensures Merge(fields, fields) == fields <==> NullFree(Object(fields))
    decreases Object(fields)
  {
    var merged := Merge(fields, fields);
    forall key | key in fields && !fields[key].Null?
      ensures key in merged && (merged[key] == fields[key] <==> NullFree(fields[key]))
    {
      MergeAt(fields, fields, key);
      if fields[key].Object? {
        MergeOntoItself(fields[key].fields);
      }
    }
    if NullFree(Object(fields)) {
      assert merged == fields;
    } else {
      var key :| key in fields && (fields[key].Null? || !NullFree(fields[key]));
      assert merged == fields ==> key in merged;
    }
  }

  /** MERGE IS IDEMPOTENT exactly when the patch lands clean. */
  lemma {:induction false} MergeTwice(target: Fields, patch: Fields)
    ensures Merge(Merge(target, patch), patch) == Merge(target, patch) <==> LandsClean(target, patch)
    decreases Object(patch)
  {
    var once := Merge(target, patch);
    var twice := Merge(once, patch);
    assert once.Keys == twice.Keys;
    forall key | key in patch && patch[key].Object?
      ensures key in once && key in twice
      ensures twice[key] == once[key] <==> MemberLandsClean(target, key, patch[key])
    {
      MergeAt(target, patch, key);
      MergeAt(once, patch, key);
      if key in target && target[key].Object? {
        MergeTwice(target[key].fields, patch[key].fields);
      } else {
        MergeOntoItself(patch[key].fields);
      }
    }
    if LandsClean(target, patch) {
      forall key | key in once ensures twice[key] == once[key] {
        if key in patch {
          MergeAt(target, patch, key);
          MergeAt(once, patch, key);
        }
      }
      assert twice == once;
    }
  }

  /** The condition is needed: a patch object with a null, landing on nothing. */
  lemma UncleanPatchFails()
    ensures var patch := map["a" := Object(map["b" := Null])];
            && MergePatch(Object(map[]), Object(patch)) != Object(Merge(map[], patch))
            && Merge(Merge(map[], patch), patch) != Merge(map[], patch)
  {
    var inner: Fields := map["b" := Null];
    var patch: Fields := map["a" := Object(inner)];
    assert "b" in inner && inner["b"].Null?;
    assert !NullFree(patch["a"]);
    assert !LandsClean(map[], patch);
    MergeIsMergePatch(map[], patch);
    MergeTwice(map[], patch);
  }
}
