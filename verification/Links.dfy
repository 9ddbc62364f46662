/** Link names, internal/arm/links.go: what each association of a collection is called. */
module Links {
  import opened Wrappers
  import opened GoStrings
  import opened Sorting

  type Target = string

  /** The names clients chose: present but empty for an association made through the older path. */
  type Names = map<Target, string>

  predicate Named(stored: Names, target: Target) {
    target in stored && stored[target] != ""
  }

  // --- A target's candidates ---

  function TrimLeftSlashes(s: string): string {
    if s != "" && s[0] == '/' then TrimLeftSlashes(s[1..]) else s
  }

  function TrimRightSlashes(s: string): string {
    if s != "" && s[|s| - 1] == '/' then TrimRightSlashes(s[..|s| - 1]) else s
  }

  function Segments(target: Target): (segments: seq<string>)
    ensures segments != []
  {
    SplitAt(TrimRightSlashes(TrimLeftSlashes(target)), '/')
  }

  /** The names from `name` on, each with one more ancestor in front; `depth` counts from the end. */
  function ChainFrom(segments: seq<string>, name: string, depth: nat): (chain: seq<string>)
    requires depth >= 1
    ensures chain != [] && chain[0] == name
    decreases |segments| + 2 - depth
  {
    if depth > |segments| then [name]
    else [name] + ChainFrom(segments, segments[|segments| - depth] + "-" + name, depth + 2)
  }

  /** Every name a target may be given, shortest first. */
  function Chain(target: Target): (chain: seq<string>)
    ensures chain != []
  {
    var segments := Segments(target);
    ChainFrom(segments, segments[|segments| - 1], 3)
  }

  /** The first candidate that is free, or the last one when none is. */
  function FirstFree(chain: seq<string>, taken: set<string>): (name: string)
    requires chain != []
    ensures name in chain
  {
    if ToLower(chain[0]) in taken && |chain| > 1 then FirstFree(chain[1..], taken) else chain[0]
  }

  /** The growth loop: it ends, with a name of the target's chain. */
  method GrowName(target: Target, taken: set<string>) returns (name: string)
    ensures name == FirstFree(Chain(target), taken)
  {
    var segments := Segments(target);
    name := segments[|segments| - 1];
    var depth := 3;
    ghost var chain := Chain(target);
    while ToLower(name) in taken && depth <= |segments|
      invariant depth >= 1 && chain == ChainFrom(segments, name, depth)
      invariant FirstFree(chain, taken) == FirstFree(Chain(target), taken)
      decreases |segments| + 2 - depth
    {
      name := segments[|segments| - depth] + "-" + name;
      depth := depth + 2;
      chain := chain[1..];
    }
  }

  /** The id made of these segments. */
  function Path(segments: seq<string>): string {
    if segments == [] then "" else "/" + (segments[0] + Path(segments[1..]))
  }

  predicate Slashless(segments: seq<string>) {
    forall k | 0 <= k < |segments| :: segments[k] != "" && '/' !in segments[k]
  }

  lemma {:induction false} SplitPath(segments: seq<string>)
    requires segments != [] && Slashless(segments)
    ensures var text := Path(segments)[1..];
            && text != "" && text[0] != '/' && text[|text| - 1] != '/'
            && SplitAt(text, '/') == segments
  {
    hide SplitAt, Path;
    var first, more := segments[0], segments[1..];
    PathStep(segments);
    SplitPieces(first, '/');
    assert first[0] in first && first[|first| - 1] in first;
    assert segments == [first] + more;
    if more != [] {
      assert forall k | 0 <= k < |more| :: more[k] == segments[k + 1];
      SplitPath(more);
      SplitJoined(first, Path(more)[1..], '/');
    }
  }

  lemma PathStep(segments: seq<string>)
    requires segments != []
    ensures var first, more := segments[0], segments[1..];
            && Path(segments) != ""
            && (more == [] ==> Path(segments)[1..] == first)
            && (more != [] ==> Path(more) != "" && Path(segments)[1..] == first + "/" + Path(more)[1..])
  {
    var first, more := segments[0], segments[1..];
    assert Path(segments)[1..] == first + Path(more);
    if more != [] {
      var tail := more[0] + Path(more[1..]);
      assert ("/" + tail)[1..] == tail;
      assert first + ("/" + tail) == first + "/" + tail;
    } else {
      assert first + "" == first;
    }
  }

  lemma {:induction false} PathAppend(segments: seq<string>, last: string)
    ensures Path(segments + [last]) == Path(segments) + "/" + last
  {
    var all := segments + [last];
    if segments == [] {
      assert all[1..] == [];
    } else {
      assert all[1..] == segments[1..] + [last];
      PathAppend(segments[1..], last);
      assert segments[0] + (Path(segments[1..]) + "/" + last) == segments[0] + Path(segments[1..]) + "/" + last;
    }
  }

  /** An id is made of its segments. */
  lemma SegmentsOfPath(segments: seq<string>)
    requires segments != [] && Slashless(segments)
    ensures Segments(Path(segments)) == segments
  {
    SplitPath(segments);
    var text := Path(segments)[1..];
    assert Path(segments) == "/" + text;
    assert TrimLeftSlashes(text) == text && TrimRightSlashes(text) == text;
  }

  lemma {:induction false} SlashesTrimmed(s: string)
    ensures TrimRightSlashes(TrimLeftSlashes(s + "/")) == TrimRightSlashes(TrimLeftSlashes(s))
    decreases |s|
  {
    if s == "" {
      assert TrimLeftSlashes("/") == "";
    } else if s[0] == '/' {
      assert (s + "/")[1..] == s[1..] + "/";
      SlashesTrimmed(s[1..]);
    } else {
      assert (s + "/")[..|s|] == s;
    }
  }

  /** Slashes around an id do not count. */
  lemma SegmentsIgnoreSlashes(target: Target)
    ensures Segments("/" + target) == Segments(target) && Segments(target + "/") == Segments(target)
  {
    assert ("/" + target)[1..] == target;
    SlashesTrimmed(target);
  }

  predicate Growing(chain: seq<string>) {
    forall i, j | 0 <= i < j < |chain| :: |chain[i]| < |chain[j]|
  }

  lemma {:induction false} ChainFromGrows(segments: seq<string>, name: string, depth: nat)
    requires depth >= 1
    ensures Growing(ChainFrom(segments, name, depth))
    decreases |segments| + 2 - depth
  {
    if depth <= |segments| {
      var longer := segments[|segments| - depth] + "-" + name;
      ChainFromGrows(segments, longer, depth + 2);
      var rest := ChainFrom(segments, longer, depth + 2);
      var chain := [name] + rest;
      forall i, j | 0 <= i < j < |chain| ensures |chain[i]| < |chain[j]| {
        assert chain[j] == rest[j - 1];
        if i == 0 && j > 1 {
          assert |rest[0]| < |rest[j - 1]|;
        } else if i > 0 {
          assert chain[i] == rest[i - 1];
        }
      }
    }
  }

  /** Candidates get strictly longer. */
  lemma CandidatesGrow(target: Target)
    ensures Growing(Chain(target))
  {
    var segments := Segments(target);
    ChainFromGrows(segments, segments[|segments| - 1], 3);
  }

  lemma {:induction false} FirstFreeIsTaken(chain: seq<string>, taken: set<string>)
    requires chain != []
    ensures ToLower(FirstFree(chain, taken)) in taken <==> forall k | 0 <= k < |chain| :: ToLower(chain[k]) in taken
  {
    if ToLower(chain[0]) in taken && |chain| > 1 {
      FirstFreeIsTaken(chain[1..], taken);
      assert forall k | 0 < k < |chain| :: chain[k] == chain[1..][k - 1];
    }
  }

  // --- The names of a collection ---

  /** The targets without a chosen name, in order. */
  function Unnamed(targets: seq<Target>, stored: Names): seq<Target> {
    if targets == [] then []
    else (if Named(stored, targets[0]) then [] else [targets[0]]) + Unnamed(targets[1..], stored)
  }

  function Chosen(targets: seq<Target>, stored: Names): Names {
    map t | t in targets && Named(stored, t) :: stored[t]
  }

  /** The names in use, in lower case. */
  function Taken(names: Names): set<string> {
    set t | t in names :: ToLower(names[t])
  }

  /** Each target in turn takes its first free candidate. */
  function Assign(targets: seq<Target>, names: Names): Names {
    if targets == [] then names
    else Assign(targets[1..], names[targets[0] := FirstFree(Chain(targets[0]), Taken(names))])
  }

  function Effective(targets: seq<Target>, stored: Names): Names {
    Assign(Sort(Unnamed(targets, stored)), Chosen(targets, stored))
  }

  lemma {:induction false} UnnamedHolds(targets: seq<Target>, stored: Names)
    ensures forall t :: t in Unnamed(targets, stored) <==> t in targets && !Named(stored, t)
  {
    if targets != [] {
      UnnamedHolds(targets[1..], stored);
      assert targets == [targets[0]] + targets[1..];
    }
  }

  lemma {:induction false} UnnamedDistinct(targets: seq<Target>, stored: Names)
    requires Distinct(targets)
    ensures Distinct(Unnamed(targets, stored))
  {
    if targets != [] {
      UnnamedDistinct(targets[1..], stored);
      UnnamedHolds(targets[1..], stored);
      assert targets[0] !in targets[1..];
    }
  }

  /** The sorted rest: just the unnamed targets, ascending. */
  lemma RestFacts(targets: seq<Target>, stored: Names)
    requires Distinct(targets)
    ensures var rest := Sort(Unnamed(targets, stored));
            Ascending(rest) && forall t :: t in rest <==> t in targets && !Named(stored, t)
  {
    UnnamedHolds(targets, stored);
    UnnamedDistinct(targets, stored);
    SortHolds(Unnamed(targets, stored));
    SortAscends(Unnamed(targets, stored));
  }

  lemma {:induction false} UnnamedAppend(targets: seq<Target>, t: Target, stored: Names)
    ensures Unnamed(targets + [t], stored) == Unnamed(targets, stored) + (if Named(stored, t) then [] else [t])
  {
    hide Named;
    if targets == [] {
      assert targets + [t] == [t] && [t][1..] == [];
    } else {
      var all, last := targets + [t], if Named(stored, t) then [] else [t];
      assert all[0] == targets[0] && all[1..] == targets[1..] + [t];
      UnnamedAppend(targets[1..], t, stored);
      var first := if Named(stored, targets[0]) then [] else [targets[0]];
      assert first + (Unnamed(targets[1..], stored) + last) == first + Unnamed(targets[1..], stored) + last;
    }
  }

  lemma TakenGrows(names: Names, t: Target, name: string)
    requires t in names ==> ToLower(names[t]) == ToLower(name)
    ensures Taken(names[t := name]) == Taken(names) + {ToLower(name)}
  {
    var more := names[t := name];
    assert t in more && ToLower(more[t]) in Taken(more);
    forall x | x in Taken(names) ensures x in Taken(more) {
      var u :| u in names && ToLower(names[u]) == x;
      assert u in more && ToLower(more[u]) == x;
    }
  }

  /** The first loop of `effectiveLinkNames`: chosen names, and the targets that have none. */
  method Collect(targets: seq<Target>, stored: Names)
    returns (names: Names, taken: set<string>, remaining: seq<Target>)
    ensures names == Chosen(targets, stored) && taken == Taken(names) && remaining == Unnamed(targets, stored)
  {
    names, taken, remaining := map[], {}, [];
    for i := 0 to |targets|
      invariant names == Chosen(targets[..i], stored) && taken == Taken(names)
      invariant remaining == Unnamed(targets[..i], stored)
    {
      var t := targets[i];
      assert targets[..i + 1] == targets[..i] + [t];
      UnnamedAppend(targets[..i], t, stored);
      if Named(stored, t) {
        TakenGrows(names, t, stored[t]);
        names := names[t := stored[t]];
        taken := taken + {ToLower(stored[t])};
      } else {
        remaining := remaining + [t];
      }
    }
    assert targets[..|targets|] == targets;
  }

  /** The second loop: the sorted rest, each growing a name until it is free. */
  method NameRest(sorted: seq<Target>, chosen: Names) returns (names: Names)
    requires Ascending(sorted) && forall t | t in sorted :: t !in chosen
    ensures names == Assign(sorted, chosen)
  {
    hide Taken, Chain;
    names := chosen;
    var taken := Taken(names);
    ghost var rest := sorted;
    for i := 0 to |sorted|
      invariant rest == sorted[i..] && taken == Taken(names)
      invariant Assign(sorted, chosen) == Assign(rest, names)
      invariant Ascending(rest) && forall t | t in rest :: t !in names
    {
      AscendingTail(rest);
      var name := GrowName(sorted[i], taken);
      TakenGrows(names, sorted[i], name);
      names := names[sorted[i] := name];
      taken := taken + {ToLower(name)};
      rest := rest[1..];
    }
  }

  /** `effectiveLinkNames`. */
  method EffectiveLinkNames(targets: seq<Target>, stored: Names) returns (names: Names)
    requires Distinct(targets)
    ensures names == Effective(targets, stored)
  {
    var chosen, taken, remaining := Collect(targets, stored);
    RestFacts(targets, stored);
    names := NameRest(Sort(remaining), chosen);
  }

  // --- What the names are ---

  lemma {:induction false} AssignKeeps(targets: seq<Target>, names: Names)
    requires forall t | t in targets :: t !in names
    requires Ascending(targets)
    ensures var all := Assign(targets, names);
            && (forall t :: t in all <==> t in names || t in targets)
            && (forall t | t in names :: all[t] == names[t])
            && (forall t | t in targets :: all[t] in Chain(t))
  {
    hide Chain, Taken;
    if targets != [] {
      AscendingTail(targets);
      assert targets == [targets[0]] + targets[1..];
      AssignKeeps(targets[1..], names[targets[0] := FirstFree(Chain(targets[0]), Taken(names))]);
    }
  }

  /** EVERY TARGET IS NAMED, and chosen names are kept; the rest are named from their own chain. */
  lemma EffectiveNamesAll(targets: seq<Target>, stored: Names)
    requires Distinct(targets)
    ensures var names := Effective(targets, stored);
            && (forall t :: t in names <==> t in targets)
            && (forall t | t in targets && Named(stored, t) :: names[t] == stored[t])
            && (forall t | t in targets && !Named(stored, t) :: names[t] in Chain(t))
  {
    hide Chain, Taken;
    RestFacts(targets, stored);
    AssignKeeps(Sort(Unnamed(targets, stored)), Chosen(targets, stored));
  }

  /** ORDER DOES NOT MATTER: the names depend only on the set of targets and the chosen names. */
  lemma EffectiveIgnoresOrder(a: seq<Target>, b: seq<Target>, stored: Names)
    requires Distinct(a) && Distinct(b) && SameElements(a, b)
    ensures Effective(a, stored) == Effective(b, stored)
  {
    RestFacts(a, stored);
    RestFacts(b, stored);
    AscendingIsUnique(Sort(Unnamed(a, stored)), Sort(Unnamed(b, stored)));
    assert Chosen(a, stored) == Chosen(b, stored);
  }

  // --- When the names are distinct ---

  /** No two targets have the same name in any case. */
  ghost predicate Unambiguous(names: Names) {
    forall t, u | t in names && u in names && t != u :: !EqualFold(names[t], names[u])
  }

  /** The names clients chose for these targets do not clash. */
  ghost predicate ChosenDistinct(targets: seq<Target>, stored: Names) {
    Unambiguous(Chosen(targets, stored))
  }

  /** A name some target goes by, in any case, that comes before this one: a target with a chosen name, or
      an unnamed one earlier in the order. */
  ghost predicate HeldBefore(name: string, target: Target, stored: Names, names: Names) {
    exists other :: other in names && other != target && (Named(stored, other) || Before(other, target))
                    && EqualFold(names[other], name)
  }

  /** Every candidate of the target is held by a target that comes before it. */
  ghost predicate Exhausted(target: Target, stored: Names, names: Names) {
    forall k | 0 <= k < |Chain(target)| :: HeldBefore(Chain(target)[k], target, stored, names)
  }

  lemma UnambiguousExtends(names: Names, t: Target, name: string)
    requires t !in names
    ensures Unambiguous(names[t := name]) <==> Unambiguous(names) && ToLower(name) !in Taken(names)
  {
    var more := names[t := name];
    if Unambiguous(names) && ToLower(name) !in Taken(names) {
      forall a, b | a in more && b in more && a != b ensures !EqualFold(more[a], more[b]) {
        if a == t {
          assert ToLower(names[b]) in Taken(names);
        } else if b == t {
          assert ToLower(names[a]) in Taken(names);
        }
      }
    }
    if Unambiguous(more) {
      forall a, b | a in names && b in names && a != b ensures !EqualFold(names[a], names[b]) {
        assert more[a] == names[a] && more[b] == names[b];
      }
      forall u | u in names ensures ToLower(names[u]) != ToLower(name) {
        assert !EqualFold(more[u], more[t]);
      }
    }
  }

  /** Each target in turn finds a free candidate. */
  predicate AllFree(targets: seq<Target>, names: Names) {
    targets == []
    || (var name := FirstFree(Chain(targets[0]), Taken(names));
        ToLower(name) !in Taken(names) && AllFree(targets[1..], names[targets[0] := name]))
  }

  lemma {:induction false} AssignIsUnambiguous(targets: seq<Target>, names: Names)
    requires Ascending(targets) && forall t | t in targets :: t !in names
    ensures Unambiguous(Assign(targets, names)) <==> Unambiguous(names) && AllFree(targets, names)
  {
    hide Chain, Taken, Unambiguous;
    if targets != [] {
      AscendingTail(targets);
      assert targets == [targets[0]] + targets[1..];
      var name := FirstFree(Chain(targets[0]), Taken(names));
      UnambiguousExtends(names, targets[0], name);
      AssignIsUnambiguous(targets[1..], names[targets[0] := name]);
    }
  }

  /** What is named so far: the targets with chosen names and those before the ones left. */
  ghost predicate InOrder(targets: seq<Target>, names: Names, stored: Names) {
    && Ascending(targets)
    && (forall t | t in targets :: t !in names && !Named(stored, t))
    && (forall other, t | other in names && t in targets :: Named(stored, other) || Before(other, t))
  }

  lemma FirstComesAfterNames(targets: seq<Target>, names: Names, stored: Names, other: Target)
    requires targets != [] && InOrder(targets, names, stored) && other in Assign(targets, names)
    ensures other != targets[0] && (Named(stored, other) || Before(other, targets[0])) <==> other in names
  {
    hide Chain, Taken, Assign;
    AssignKeeps(targets, names);
    if other !in names {
      var k :| 0 <= k < |targets| && targets[k] == other;
      if k > 0 {
        CompareFlips(targets[0], other);
      }
    } else {
      assert targets[0] in targets;
    }
  }

  /** What is taken when a target's turn comes is held by the targets before it. */
  lemma TakenIsHeld(targets: seq<Target>, names: Names, stored: Names, name: string)
    requires targets != [] && InOrder(targets, names, stored)
    ensures ToLower(name) in Taken(names) <==> HeldBefore(name, targets[0], stored, Assign(targets, names))
  {
    hide Assign;
    var t, all := targets[0], Assign(targets, names);
    AssignKeeps(targets, names);
    if ToLower(name) in Taken(names) {
      var other :| other in names && ToLower(names[other]) == ToLower(name);
      FirstComesAfterNames(targets, names, stored, other);
      assert EqualFold(all[other], name);
    }
    if HeldBefore(name, t, stored, all) {
      var other :| other in all && other != t && (Named(stored, other) || Before(other, t))
                   && EqualFold(all[other], name);
      FirstComesAfterNames(targets, names, stored, other);
      assert names[other] == all[other];
    }
  }

  lemma FirstIsExhausted(targets: seq<Target>, names: Names, stored: Names)
    requires targets != [] && InOrder(targets, names, stored)
    ensures Exhausted(targets[0], stored, Assign(targets, names))
       <==> ToLower(FirstFree(Chain(targets[0]), Taken(names))) in Taken(names)
  {
    hide Chain, Assign, HeldBefore, Taken, InOrder;
    var chain := Chain(targets[0]);
    FirstFreeIsTaken(chain, Taken(names));
    forall k | 0 <= k < |chain|
      ensures ToLower(chain[k]) in Taken(names) <==>
                HeldBefore(chain[k], targets[0], stored, Assign(targets, names))
    {
      TakenIsHeld(targets, names, stored, chain[k]);
    }
  }

  lemma {:induction false} AllFreeMeansNoneExhausted(targets: seq<Target>, names: Names, stored: Names)
    requires InOrder(targets, names, stored)
    ensures AllFree(targets, names) <==> forall t | t in targets :: !Exhausted(t, stored, Assign(targets, names))
  {
    hide Chain, Taken, Exhausted;
    if targets != [] {
      var t := targets[0];
      var name := FirstFree(Chain(t), Taken(names));
      AscendingTail(targets);
      FirstIsExhausted(targets, names, stored);
      forall u | u in targets[1..] ensures Before(t, u) && u in targets {
        var k :| 0 <= k < |targets[1..]| && targets[1..][k] == u;
        assert targets[k + 1] == u;
      }
      AllFreeMeansNoneExhausted(targets[1..], names[t := name], stored);
      assert targets == [t] + targets[1..];
    }
  }

  /** NAMES ARE DISTINCT, ignoring case, exactly when the chosen ones are and no unnamed target has its
      whole chain of candidates taken. */
  lemma EffectiveIsUnambiguous(targets: seq<Target>, stored: Names)
    requires Distinct(targets)
    ensures var names := Effective(targets, stored);
            Unambiguous(names) <==>
              && ChosenDistinct(targets, stored)
              && forall t | t in targets && !Named(stored, t) :: !Exhausted(t, stored, names)
  {
    hide Chain, Taken, Exhausted, Assign, Unambiguous;
    var rest, chosen := Sort(Unnamed(targets, stored)), Chosen(targets, stored);
    RestFacts(targets, stored);
    AssignIsUnambiguous(rest, chosen);
    AllFreeMeansNoneExhausted(rest, chosen, stored);
  }

  // --- Which candidate a target gets ---

  /** The target is given a candidate behind a run of held ones, a held one only when it is the last. */
  ghost predicate FirstNotHeld(target: Target, stored: Names, names: Names) {
    target in names && exists k | 0 <= k < |Chain(target)| :: CandidateIs(target, k, stored, names)
  }

  ghost predicate CandidateIs(target: Target, k: nat, stored: Names, names: Names)
    requires target in names && k < |Chain(target)|
  {
    && names[target] == Chain(target)[k]
    && (forall j | 0 <= j < k :: HeldBefore(Chain(target)[j], target, stored, names))
    && (HeldBefore(names[target], target, stored, names) ==> k == |Chain(target)| - 1)
  }

  lemma {:induction false} FirstFreeIs(chain: seq<string>, taken: set<string>) returns (k: nat)
    requires chain != []
    ensures k < |chain| && FirstFree(chain, taken) == chain[k]
    ensures forall j | 0 <= j < k :: ToLower(chain[j]) in taken
    ensures ToLower(chain[k]) in taken ==> k == |chain| - 1
  {
    k := 0;
    if ToLower(chain[0]) in taken && |chain| > 1 {
      var n := FirstFreeIs(chain[1..], taken);
      k := n + 1;
      assert forall j | 0 < j <= k :: chain[j] == chain[1..][j - 1];
    }
  }

  lemma FirstGetsItsCandidate(targets: seq<Target>, names: Names, stored: Names)
    requires targets != [] && InOrder(targets, names, stored)
    ensures FirstNotHeld(targets[0], stored, Assign(targets, names))
  {
    hide Chain, HeldBefore, Taken, InOrder, Assign, FirstFree;
    var t, all := targets[0], Assign(targets, names);
    FirstIsAssigned(targets, names, stored);
    var k := FirstFreeIs(Chain(t), Taken(names));
    forall j | 0 <= j <= k ensures ToLower(Chain(t)[j]) in Taken(names) <==> HeldBefore(Chain(t)[j], t, stored, all) {
      TakenIsHeld(targets, names, stored, Chain(t)[j]);
    }
    assert CandidateIs(t, k, stored, all);
  }

  lemma FirstIsAssigned(targets: seq<Target>, names: Names, stored: Names)
    requires targets != [] && InOrder(targets, names, stored)
    ensures targets[0] in Assign(targets, names)
    ensures Assign(targets, names)[targets[0]] == FirstFree(Chain(targets[0]), Taken(names))
  {
    hide Chain, Taken, FirstFree;
    AscendingTail(targets);
    var more := names[targets[0] := FirstFree(Chain(targets[0]), Taken(names))];
    assert targets == [targets[0]] + targets[1..];
    AssignKeeps(targets[1..], more);
  }

  lemma {:induction false} AssignTakesFirst(targets: seq<Target>, names: Names, stored: Names)
    requires InOrder(targets, names, stored)
    ensures forall t | t in targets :: FirstNotHeld(t, stored, Assign(targets, names))
  {
    hide Chain, Taken, FirstNotHeld, FirstFree;
    if targets != [] {
      var t := targets[0];
      FirstGetsItsCandidate(targets, names, stored);
      RestInOrder(targets, names, stored);
      AssignTakesFirst(targets[1..], names[t := FirstFree(Chain(t), Taken(names))], stored);
      assert targets == [t] + targets[1..];
    }
  }

  lemma RestInOrder(targets: seq<Target>, names: Names, stored: Names)
    requires targets != [] && InOrder(targets, names, stored)
    ensures InOrder(targets[1..], names[targets[0] := FirstFree(Chain(targets[0]), Taken(names))], stored)
  {
    hide Chain, Taken, FirstFree;
    AscendingTail(targets);
    forall u | u in targets[1..] ensures Before(targets[0], u) && u in targets {
      var k :| 0 <= k < |targets[1..]| && targets[1..][k] == u;
      assert targets[k + 1] == u;
    }
  }

  /** A TARGET GETS ITS FIRST FREE CANDIDATE: every shorter one is what some other target goes by, in any
      case, that has a chosen name or comes before it; and so is its own only when there is no longer one. */
  lemma EffectiveTakesFirst(targets: seq<Target>, stored: Names)
    requires Distinct(targets)
    ensures forall t | t in targets && !Named(stored, t) :: FirstNotHeld(t, stored, Effective(targets, stored))
  {
    hide Chain, FirstNotHeld;
    RestFacts(targets, stored);
    AssignTakesFirst(Sort(Unnamed(targets, stored)), Chosen(targets, stored), stored);
  }

  /** A TARGET NOBODY COMPETES WITH goes by its last segment. */
  lemma LoneSegmentIsKept(targets: seq<Target>, stored: Names, t: Target)
    requires Distinct(targets) && t in targets && !Named(stored, t)
    requires var names := Effective(targets, stored); var last := Segments(t)[|Segments(t)| - 1];
             forall other | other in names && other != t :: !EqualFold(names[other], last)
    ensures t in Effective(targets, stored) && Effective(targets, stored)[t] == Segments(t)[|Segments(t)| - 1]
  {
    hide Chain, Effective, Segments;
    EffectiveTakesFirst(targets, stored);
    var names := Effective(targets, stored);
    var k :| 0 <= k < |Chain(t)| && CandidateIs(t, k, stored, names);
    ChainStart(t);
    assert k > 0 ==> HeldBefore(Chain(t)[0], t, stored, names);
  }

  lemma ChainStart(t: Target)
    ensures Chain(t)[0] == Segments(t)[|Segments(t)| - 1]
  {
  }

  /** The chain in closed form: from an id of these segments, each candidate puts the next ancestor two
      segments up in front of the last. */
  lemma {:induction false} ChainFromIs(segments: seq<string>, name: string, depth: nat, k: nat)
    requires depth >= 1
    ensures var chain := ChainFrom(segments, name, depth);
            && |chain| == (if depth > |segments| then 1 else (|segments| - depth) / 2 + 2)
            && (0 < k < |chain| ==> chain[k] == segments[|segments| - depth - 2 * (k - 1)] + "-" + chain[k - 1])
    decreases |segments| + 2 - depth
  {
    if depth <= |segments| {
      var longer := segments[|segments| - depth] + "-" + name;
      ChainFromIs(segments, longer, depth + 2, if k > 0 then k - 1 else 0);
      var chain, rest := ChainFrom(segments, name, depth), ChainFrom(segments, longer, depth + 2);
      assert chain == [name] + rest;
      assert 1 < k < |chain| ==> chain[k - 1] == rest[k - 2];
    }
  }

  lemma ChainOfPath(segments: seq<string>, k: nat)
    requires segments != [] && Slashless(segments)
    ensures var chain, n := Chain(Path(segments)), |segments|;
            && |chain| == (n + 1) / 2
            && chain[0] == segments[n - 1]
            && (0 < k < |chain| ==> chain[k] == segments[n - 1 - 2 * k] + "-" + chain[k - 1])
  {
    hide ChainFrom;
    SegmentsOfPath(segments);
    ChainFromIs(segments, segments[|segments| - 1], 3, k);
  }
}
