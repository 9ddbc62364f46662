/** How stored link names come to clash, on ids of the emulator's own form: a target linked under two
    spellings, and a target whose candidates are all taken. */
module LinkClashes {
  import opened Wrappers
  import opened GoStrings
  import opened Sorting
  import opened Links
  import opened LinkCollections

  /** Ids in the emulator's form: under one service, an API by its name. */
  const SERVICE := ["subscriptions", "s", "resourceGroups", "g", "providers", "Microsoft.ApiManagement", "service", "v"]

  function ApiId(name: string): Target {
    Path(SERVICE + ["apis", name])
  }

  /** A TARGET LINKED AGAIN UNDER ANOTHER SPELLING makes two rows with one stored name. */
  lemma RespellingLetsNamesClash(upper: Target, lower: Target, name: string)
    requires upper != lower && EqualFold(upper, lower) && name != ""
    ensures var s := Put(Rows([], map[]), lower, name);
            && s.Valid() && !NamesClash(s) && MayPut(s, upper, name) && NamesClash(Put(s, upper, name))
  {
    var none := Rows([], map[]);
    var s := Put(none, lower, name);
    assert s.targets == [lower] && s.stored == map[lower := name];
    PutIsReadBack(none, lower, name);
    assert s.targets[0] == lower;
    PutKeepsNamesApart(none, lower, name);
    PutKeepsNamesApart(s, upper, name);
  }

  lemma ApisDiffer(a: char, b: char)
    requires 'a' <= a <= 'z' && 'a' <= b <= 'z' && a != b
    ensures !EqualFold(ApiId([a]), ApiId([b]))
  {
    PathAppend(SERVICE + ["apis"], [a]);
    PathAppend(SERVICE + ["apis"], [b]);
    assert SERVICE + ["apis", [a]] == SERVICE + ["apis"] + [[a]];
    assert SERVICE + ["apis", [b]] == SERVICE + ["apis"] + [[b]];
    var x, y := ApiId([a]), ApiId([b]);
    assert x[|x| - 1] == a && y[|y| - 1] == b;
    assert ToLower(x)[|x| - 1] == a && ToLower(y)[|y| - 1] == b;
  }

  /** One API linked to a tag as `a` and again as `A`. */
  lemma RespelledApiClashes()
    ensures var s := Put(Rows([], map[]), ApiId("a"), "x");
            s.Valid() && !NamesClash(s) && MayPut(s, ApiId("A"), "x") && NamesClash(Put(s, ApiId("A"), "x"))
  {
    PathAppend(SERVICE + ["apis"], "a");
    PathAppend(SERVICE + ["apis"], "A");
    assert SERVICE + ["apis", "a"] == SERVICE + ["apis"] + ["a"];
    assert SERVICE + ["apis", "A"] == SERVICE + ["apis"] + ["A"];
    var lower, upper := ApiId("a"), ApiId("A");
    assert lower[|lower| - 1] == 'a' && upper[|upper| - 1] == 'A';
    assert ToLower(lower) == ToLower(upper);
    RespellingLetsNamesClash(upper, lower, "x");
  }

  ghost predicate Apart(targets: seq<Target>) {
    forall i, j | 0 <= i < j < |targets| :: !EqualFold(targets[i], targets[j])
  }

  lemma FoldsItself(s: string)
    ensures EqualFold(s, s)
  {
  }

  lemma ApartIsNew(targets: seq<Target>, last: Target)
    requires Apart(targets + [last])
    ensures Apart(targets) && forall u | u in targets :: !EqualFold(u, last) && u != last
  {
    hide EqualFold;
    var all := targets + [last];
    assert all[|targets|] == last;
    assert forall i | 0 <= i < |targets| :: all[i] == targets[i];
    FoldsItself(last);
  }

  /** Rows whose targets were linked one after the other by these names. */
  ghost function Linked(targets: seq<Target>, names: seq<string>): Rows
    requires |targets| == |names|
  {
    if targets == [] then Rows([], map[])
    else
      var n := |targets| - 1;
      Put(Linked(targets[..n], names[..n]), targets[n], names[n])
  }

  lemma PutNew(s: Rows, target: Target, name: string)
    requires s.Valid() && forall u | u in s.targets :: !EqualFold(u, target) && u != target
    ensures Put(s, target, name) == Rows(s.targets + [target], s.stored[target := name])
    ensures Put(s, target, name).Valid()
  {
    assert Put(s, target, name).stored == s.stored[target := name];
  }

  lemma LinkedLast(targets: seq<Target>, names: seq<string>)
    requires |targets| == |names|
    ensures targets == [] ==> Linked(targets, names) == Rows([], map[])
    ensures targets != [] ==>
              var n := |targets| - 1;
              Linked(targets, names) == Put(Linked(targets[..n], names[..n]), targets[n], names[n])
  {
    hide Put;
  }

  lemma {:induction false} LinkedHolds(targets: seq<Target>, names: seq<string>)
    requires |targets| == |names| && Apart(targets)
    ensures var s := Linked(targets, names);
            && s.Valid() && s.targets == targets
            && forall i | 0 <= i < |targets| :: targets[i] in s.stored && s.stored[targets[i]] == names[i]
  {
    hide Put, Apart, EqualFold, Linked;
    LinkedLast(targets, names);
    if targets != [] {
      var n := |targets| - 1;
      var init, last := targets[..n], targets[n];
      assert targets == init + [last];
      ApartIsNew(init, last);
      LinkedHolds(init, names[..n]);
      PutNew(Linked(init, names[..n]), last, names[n]);
    }
  }

  /** Names that differ in any case. */
  ghost predicate Fresh(names: seq<string>) {
    Apart(names) && "" !in names
  }

  lemma GrowingIsFresh(chain: seq<string>)
    requires Growing(chain) && (chain != [] ==> chain[0] != "")
    ensures Fresh(chain)
  {
    forall i, j | 0 <= i < j < |chain| ensures !EqualFold(chain[i], chain[j]) {
      assert |ToLower(chain[i])| < |ToLower(chain[j])|;
    }
  }

  lemma LinkedNames(targets: seq<Target>, names: seq<string>)
    requires |targets| == |names| && Apart(targets) && Fresh(names)
    ensures var s := Linked(targets, names);
            && s.Valid() && !NamesClash(s)
            && (forall t :: t in s.Names() <==> t in targets)
            && forall i | 0 <= i < |targets| :: s.Names()[targets[i]] == names[i]
  {
    hide Effective, Linked, Fresh, EqualFold;
    var s := Linked(targets, names);
    LinkedHolds(targets, names);
    FreshNames(names);
    EffectiveNamesAll(s.targets, s.stored);
    var chosen := Chosen(s.targets, s.stored);
    forall a, b | a in chosen && b in chosen && a != b ensures !EqualFold(chosen[a], chosen[b]) {
      var i :| 0 <= i < |targets| && targets[i] == a;
      var j :| 0 <= j < |targets| && targets[j] == b;
      FreshDiffer(names, i, j);
    }
  }

  lemma FreshNames(names: seq<string>)
    requires Fresh(names)
    ensures forall i | 0 <= i < |names| :: names[i] != ""
  {
  }

  lemma FreshDiffer(names: seq<string>, i: nat, j: nat)
    requires Fresh(names) && i < |names| && j < |names| && i != j
    ensures !EqualFold(names[i], names[j])
  {
  }

  /** A fresh name is accepted, since no target goes by it yet. */
  lemma LinkedStep(targets: seq<Target>, names: seq<string>, target: Target, name: string)
    requires |targets| == |names| && Apart(targets + [target]) && Fresh(names + [name])
    ensures var s := Linked(targets, names);
            && Step(s, Event.PutLink(name, target), Linked(targets + [target], names + [name]))
            && OneSpelling(s, target)
  {
    hide Effective, Fresh, EqualFold, Put, Apart;
    var all, s := names + [name], Linked(targets, names);
    ApartIsNew(targets, target);
    FreshPrefix(names, name);
    LinkedNames(targets, names);
    LinkedHolds(targets, names);
    FreshNames(all);
    assert all[|names|] == name;
    forall owner ensures !Owns(s.Names(), owner, name) {
      if owner in targets {
        var i :| 0 <= i < |targets| && targets[i] == owner;
        FreshDiffer(all, i, |names|);
        assert all[i] == names[i];
      }
    }
    assert (targets + [target])[..|targets|] == targets && all[..|names|] == names;
    assert (targets + [target])[|targets|] == target;
  }

  lemma FreshPrefix(names: seq<string>, name: string)
    requires Fresh(names + [name])
    ensures Fresh(names)
  {
    ApartIsNew(names, name);
    assert forall x | x in names :: x in names + [name];
  }

  /** The rows once every candidate of `t` is chosen and `t` is attached without a name. */
  ghost function Full(t: Target, others: seq<Target>): Rows
    requires |others| == |Chain(t)|
  {
    Attach(Linked(others, Chain(t)), t)
  }

  lemma FullHolds(t: Target, others: seq<Target>)
    requires |others| == |Chain(t)| && Apart(others + [t]) && Chain(t)[0] != ""
    ensures var s := Full(t, others);
            && s.Valid() && s.targets == others + [t] && !Named(s.stored, t) && OneSpelling(s, t) && !NamesClash(s)
            && forall i | 0 <= i < |others| ::
                 others[i] in s.targets && Named(s.stored, others[i]) && s.stored[others[i]] == Chain(t)[i]
  {
    hide Chain, Linked, EqualFold, NamesClash, Fresh, Apart, Effective;
    CandidatesGrow(t);
    GrowingIsFresh(Chain(t));
    FreshNames(Chain(t));
    ApartIsNew(others, t);
    var before := Linked(others, Chain(t));
    LinkedHolds(others, Chain(t));
    LinkedNames(others, Chain(t));
    StepKeepsValid(before, OldAttach(t), Full(t, others));
    OtherStepsKeepNamesApart(before, OldAttach(t), Full(t, others));
  }

  /** Then `t` goes by a name that another has chosen. */
  lemma FullNames(t: Target, others: seq<Target>) returns (i: nat)
    requires |others| == |Chain(t)| && Apart(others + [t]) && Chain(t)[0] != ""
    ensures var s := Full(t, others);
            && s.Valid() && t in s.Names() && i < |others| && s.Names()[t] == Chain(t)[i]
            && Exhausted(t, s.stored, s.Names())
  {
    hide Chain, Effective, Full, NamesClash, OneSpelling, EqualFold, Apart, Before;
    var n, s := |others|, Full(t, others);
    FullHolds(t, others);
    ApartIsNew(others, t);
    EffectiveNamesAll(s.targets, s.stored);
    var names := s.Names();
    assert s.targets[n] == t;
    assert forall k | 0 <= k < n :: names[others[k]] == Chain(t)[k];
    i :| 0 <= i < n && Chain(t)[i] == names[t];
    forall k | 0 <= k < n
      ensures exists other :: other in names && other != t && (Named(s.stored, other) || Before(other, t))
                              && EqualFold(names[other], Chain(t)[k])
    {
      FoldsItself(Chain(t)[k]);
      assert others[k] in names && Named(s.stored, others[k]) && EqualFold(names[others[k]], Chain(t)[k]);
    }
  }

  /** And a PUT of that name on `t` itself is accepted. */
  lemma CrowdedOut(t: Target, others: seq<Target>) returns (name: string)
    requires |others| == |Chain(t)| && Apart(others + [t]) && Chain(t)[0] != ""
    ensures var s := Full(t, others);
            && s.Valid() && !NamesClash(s) && Exhausted(t, s.stored, s.Names()) && OneSpelling(s, t)
            && name != "" && MayPut(s, t, name) && NamesClash(Put(s, t, name))
  {
    hide Chain, Effective, Put, Full, NamesClash, OneSpelling, EqualFold, Exhausted, Apart;
    var s := Full(t, others);
    FullHolds(t, others);
    ApartIsNew(others, t);
    var i := FullNames(t, others);
    name := s.Names()[t];
    FoldsItself(name);
    FoldsItself(t);
    assert Owns(s.Names(), t, name);
    assert Named(s.stored, others[i]) && EqualFold(s.stored[others[i]], name) && !EqualFold(others[i], t);
    PutKeepsNamesApart(s, t, name);
  }

  /** EXHAUSTION LETS NAMES CLASH. Around any target, as many others as it has candidates can be linked,
      one after the other, so that the target has none left; then it is attached by the older path, and
      linked by the name it goes by. Every request may be accepted (which owner of a name the server
      finds is up to its map), none respells a target, and the last one gives two rows the same stored
      name. */
  lemma ExhaustionLetsNamesClash(t: Target, others: seq<Target>) returns (states: seq<Rows>, events: seq<Event>)
    requires |others| == |Chain(t)| && Apart(others + [t]) && Chain(t)[0] != ""
    ensures |events| == |others| + 2 && Run(states, events) && states[0] == Rows([], map[])
    ensures forall k | 0 <= k < |events| && events[k].PutLink? :: OneSpelling(states[k], events[k].target)
    ensures var full := states[|others| + 1];
            && full.targets == others + [t] && !NamesClash(full) && Exhausted(t, full.stored, full.Names())
            && events[|others| + 1].PutLink? && events[|others| + 1].target == t
            && NamesClash(states[|others| + 2])
  {
    hide Chain, Effective, Put, NamesClash, MayPut, OneSpelling, Exhausted, Apart, Linked, Full;
    var n, chain := |others|, Chain(t);
    var name := CrowdedOut(t, others);
    FullHolds(t, others);
    FullIsAttached(t, others);
    states := seq(n + 1, k requires 0 <= k <= n => Linked(others[..k], chain[..k]))
              + [Full(t, others), Put(Full(t, others), t, name)];
    events := seq(n, k requires 0 <= k < n => Event.PutLink(chain[k], others[k]))
              + [OldAttach(t), Event.PutLink(name, t)];
    assert states[n] == Linked(others[..n], chain[..n]) && others[..n] == others && chain[..n] == chain;
    assert states[n + 1] == Full(t, others) && states[n + 2] == Put(Full(t, others), t, name);
    forall k | 0 <= k < n + 2
      ensures Step(states[k], events[k], states[k + 1])
      ensures events[k].PutLink? ==> OneSpelling(states[k], events[k].target)
    {
      if k < n {
        ChainStep(t, others, k);
        assert states[k] == Linked(others[..k], chain[..k]) && states[k + 1] == Linked(others[..k + 1], chain[..k + 1]);
      }
    }
    NothingLinked();
  }

  lemma NothingLinked()
    ensures Linked([], []) == Rows([], map[])
  {
  }

  lemma FullIsAttached(t: Target, others: seq<Target>)
    requires |others| == |Chain(t)|
    ensures Step(Linked(others, Chain(t)), OldAttach(t), Full(t, others))
  {
  }

  lemma ChainStep(t: Target, others: seq<Target>, k: nat)
    requires k < |others| == |Chain(t)| && Apart(others + [t]) && Chain(t)[0] != ""
    ensures var s := Linked(others[..k], Chain(t)[..k]);
            && Step(s, Event.PutLink(Chain(t)[k], others[k]), Linked(others[..k + 1], Chain(t)[..k + 1]))
            && OneSpelling(s, others[k])
  {
    hide Chain, Linked, Step, OneSpelling, EqualFold;
    CandidatesGrow(t);
    var chain := Chain(t)[..k + 1];
    GrowingIsFresh(chain);
    assert chain == Chain(t)[..k] + [Chain(t)[k]];
    ApartIsNew(others, t);
    assert others[..k + 1] == others[..k] + [others[k]];
    LinkedStep(others[..k], Chain(t)[..k], others[k], Chain(t)[k]);
  }

  lemma ApiSegments()
    ensures Segments(ApiId("b")) == SERVICE + ["apis", "b"]
  {
    var segments := SERVICE + ["apis", "b"];
    assert SERVICE[0] == "subscriptions" && |segments| == 10;
    SegmentsOfPath(segments);
  }

  /** The five candidates of an API's link: `b`, `v-b`, and so on through every ancestor's name. */
  lemma ApiCandidates()
    ensures var second := "v" + "-" + "b";
            var third := "Microsoft.ApiManagement" + "-" + second;
            var fourth := "g" + "-" + third;
            Chain(ApiId("b")) == ["b", second, third, fourth, "s" + "-" + fourth]
  {
    hide ApiId, Segments, ChainFrom;
    ApiSegments();
    var segments := SERVICE + ["apis", "b"];
    var second := "v" + "-" + "b";
    var third := "Microsoft.ApiManagement" + "-" + second;
    var fourth := "g" + "-" + third;
    assert segments[9] == "b";
    Longer(segments, "b", "v", 3);
    Longer(segments, second, "Microsoft.ApiManagement", 5);
    Longer(segments, third, "g", 7);
    Longer(segments, fourth, "s", 9);
    Longest(segments, "s" + "-" + fourth, 11);
  }

  lemma Longest(segments: seq<string>, name: string, depth: nat)
    requires depth > |segments|
    ensures depth >= 1 && ChainFrom(segments, name, depth) == [name]
  {
  }

  lemma Longer(segments: seq<string>, name: string, ancestor: string, depth: nat)
    requires 1 <= depth <= |segments| && segments[|segments| - depth] == ancestor
    ensures ChainFrom(segments, name, depth) == [name] + ChainFrom(segments, ancestor + "-" + name, depth + 2)
  {
  }

  /** So it happens to six APIs of one service, `b` with its five candidates taken by `c` to `g`. */
  lemma ApisLetNamesClash() returns (states: seq<Rows>, events: seq<Event>)
    ensures |events| == 7 && Run(states, events) && states[0] == Rows([], map[])
    ensures forall k | 0 <= k < 7 && events[k].PutLink? :: OneSpelling(states[k], events[k].target)
    ensures states[6].targets == [ApiId("c"), ApiId("d"), ApiId("e"), ApiId("f"), ApiId("g"), ApiId("b")]
    ensures !NamesClash(states[6]) && NamesClash(states[7])
  {
    hide Chain, ApiId, EqualFold, Exhausted, Effective, NamesClash, OneSpelling, Step;
    ApiCandidates();
    var t, others := ApiId("b"), [ApiId("c"), ApiId("d"), ApiId("e"), ApiId("f"), ApiId("g")];
    var names := "cdefgb";
    forall i, j | 0 <= i < j < 6 ensures !EqualFold((others + [t])[i], (others + [t])[j]) {
      ApisDiffer(names[i], names[j]);
      assert [names[i]] == ["c", "d", "e", "f", "g", "b"][i] && [names[j]] == ["c", "d", "e", "f", "g", "b"][j];
    }
    states, events := ExhaustionLetsNamesClash(t, others);
  }
}
