/** One collection of links as state, internal/arm/links.go with its store: PUT and DELETE of links,
    and the older path that attaches and detaches targets without naming them. */
module LinkCollections {
  import opened Wrappers
  import opened GoStrings
  import opened Sorting
  import opened Links

  /** The association rows of one owner: their targets, and the names stored on them. */
  datatype Rows = Rows(targets: seq<Target>, stored: Names) {
    predicate Valid() {
      Distinct(targets) && (forall t | t in targets :: t in stored) && (forall t | t in stored :: t in targets)
    }

    function Names(): Names
    {
      Effective(targets, stored)
    }
  }

  // --- The store: targets are inserted as spelled, and found in any case ---

  function Attach(s: Rows, target: Target): Rows {
    if target in s.stored then s else Rows(s.targets + [target], s.stored[target := ""])
  }

  function SetName(s: Rows, target: Target, name: string): Rows {
    s.(stored := map t | t in s.stored :: if EqualFold(t, target) then name else s.stored[t])
  }

  function Without(targets: seq<Target>, target: Target): seq<Target> {
    if targets == [] then []
    else (if EqualFold(targets[0], target) then [] else [targets[0]]) + Without(targets[1..], target)
  }

  function Detach(s: Rows, target: Target): Rows {
    Rows(Without(s.targets, target), map t | t in s.stored && !EqualFold(t, target) :: s.stored[t])
  }

  function Put(s: Rows, target: Target, name: string): Rows {
    SetName(Attach(s, target), target, name)
  }

  // --- Requests ---

  /** A target that has this name, in any case. */
  predicate Owns(names: Names, target: Target, name: string) {
    target in names && EqualFold(names[target], name)
  }

  /** `putLink` accepts a name that no other target has; which owner it finds is up to the map. */
  ghost predicate MayPut(s: Rows, target: Target, name: string) {
    || (forall owner :: !Owns(s.Names(), owner, name))
    || (exists owner :: Owns(s.Names(), owner, name) && EqualFold(owner, target))
  }

  datatype Event =
    | PutLink(name: string, target: Target)
    | DeleteLink(name: string)
    | OldAttach(target: Target)
    | OldDetach(target: Target)

  /** What a request may do to the rows; any of them may also be refused and change nothing. */
  ghost predicate Step(s: Rows, e: Event, t: Rows) {
    || t == s
    || match e
       case PutLink(name, target) => name != "" && MayPut(s, target, name) && t == Put(s, target, name)
       case DeleteLink(name) => exists owner :: Owns(s.Names(), owner, name) && t == Detach(s, owner)
       case OldAttach(target) => t == Attach(s, target)
       case OldDetach(target) => t == Detach(s, target)
  }

  datatype Status = OK | Created | NoContent | NotFound | BadRequest | Conflict

  class Collection {
    var targets: seq<Target>
    var stored: Names

    constructor ()
      ensures View() == Rows([], map[])
    {
      targets, stored := [], map[];
    }

    ghost function View(): Rows
      reads this
    {
      Rows(targets, stored)
    }

    /** The loops of `linkRoute` and `linkNameOwner`, over a map in any order. */
    method FindOwner(names: Names, name: string) returns (owner: Option<Target>)
      ensures match owner
              case Some(t) => Owns(names, t, name)
              case None => forall t :: !Owns(names, t, name)
    {
      var left := names.Keys;
      while left != {}
        invariant left <= names.Keys
        invariant forall t | t in names && t !in left :: !Owns(names, t, name)
      {
        var t :| t in left;
        if EqualFold(names[t], name) {
          return Some(t);
        }
        left := left - {t};
      }
      return None;
    }

    /** `putLink`: `known` says whether the target exists, `attachable` whether the store takes the row. */
    method PutLink(name: string, target: Target, known: bool, attachable: bool) returns (status: Status)
      requires View().Valid() && name != ""
      modifies this
      ensures Step(old(View()), Event.PutLink(name, target), View())
      ensures status in {OK, Created, BadRequest, Conflict}
      ensures View() == if status in {OK, Created} then Put(old(View()), target, name) else old(View())
      ensures status == Created ==> forall owner :: !Owns(old(View()).Names(), owner, name)
      ensures status == OK ==> exists owner :: Owns(old(View()).Names(), owner, name)
      ensures target == "" || !known ==> status == BadRequest
      ensures status == BadRequest && target != "" && known ==>
                exists owner :: Owns(old(View()).Names(), owner, name) && !EqualFold(owner, target)
      ensures status == Conflict ==> !attachable
      ensures status in {OK, Created} ==> target != "" && known && attachable
    {
      hide Effective, Put, Attach, Owns;
      ghost var before := View();
      var names := EffectiveLinkNames(targets, stored);
      assert before.Names() == names;
      var existing := FindOwner(names, name);
      if target == "" || !known {
        return BadRequest;
      }
      var taken := FindOwner(names, name);
      if taken.Some? && !EqualFold(taken.value, target) {
        return BadRequest;
      }
      if !attachable {
        return Conflict;
      }
      assert MayPut(before, target, name);
      PutIsTwoUpdates(before, target, name);
      if target !in stored {
        targets, stored := targets + [target], stored[target := ""];
      }
      stored := map t | t in stored :: if EqualFold(t, target) then name else stored[t];
      assert View() == Put(before, target, name);
      return if existing.None? then Created else OK;
    }

    method DeleteLink(name: string) returns (status: Status)
      requires View().Valid()
      modifies this
      ensures Step(old(View()), Event.DeleteLink(name), View())
      ensures status == NotFound <==> forall owner :: !Owns(old(View()).Names(), owner, name)
      ensures status == NotFound ==> View() == old(View())
      ensures status == NoContent ==>
                exists owner :: Owns(old(View()).Names(), owner, name) && View() == Detach(old(View()), owner)
    {
      hide Effective, Without;
      var names := EffectiveLinkNames(targets, stored);
      var owner := FindOwner(names, name);
      if owner.None? {
        return NotFound;
      }
      ghost var before := View();
      assert Owns(before.Names(), owner.value, name);
      targets := Without(targets, owner.value);
      stored := map t | t in stored && !EqualFold(t, owner.value) :: stored[t];
      assert View() == Detach(before, owner.value);
      return NoContent;
    }
  }

  /** `attach`, then `SetLinkName`. */
  lemma PutIsTwoUpdates(s: Rows, target: Target, name: string)
    ensures var t := if target in s.stored then s else Rows(s.targets + [target], s.stored[target := ""]);
            Put(s, target, name)
            == Rows(t.targets, map u | u in t.stored :: if EqualFold(u, target) then name else t.stored[u])
  {
  }

  // --- What every request keeps ---

  lemma {:induction false} WithoutHolds(targets: seq<Target>, target: Target)
    ensures forall t :: t in Without(targets, target) <==> t in targets && !EqualFold(t, target)
    ensures Distinct(targets) ==> Distinct(Without(targets, target))
  {
    if targets != [] {
      WithoutHolds(targets[1..], target);
      assert targets == [targets[0]] + targets[1..];
    }
  }

  /** A row is put under the spelling given unless it is there already; every spelling takes the new name,
      and nothing else is renamed. */
  lemma PutIsLocal(s: Rows, target: Target, name: string)
    requires s.Valid()
    ensures var t := Put(s, target, name);
            && t.Valid() && (forall u :: u in t.targets <==> u in s.targets || u == target)
            && (forall u | u in t.targets && EqualFold(u, target) :: t.stored[u] == name)
            && (forall u | u in t.targets && !EqualFold(u, target) :: t.stored[u] == s.stored[u])
  {
  }

  /** The older path adds a row without a name, and leaves one that is there as it is. */
  lemma AttachIsLocal(s: Rows, target: Target)
    requires s.Valid()
    ensures var t := Attach(s, target);
            && t.Valid() && (forall u :: u in t.targets <==> u in s.targets || u == target)
            && (target !in s.targets ==> !Named(t.stored, target))
            && (forall u | u in s.targets :: t.stored[u] == s.stored[u])
  {
  }

  /** Removing a target removes every spelling of it, and nothing else. */
  lemma DetachIsLocal(s: Rows, target: Target)
    requires s.Valid()
    ensures var t := Detach(s, target);
            && t.Valid() && (forall u :: u in t.targets <==> u in s.targets && !EqualFold(u, target))
            && (forall u | u in t.targets :: t.stored[u] == s.stored[u])
  {
    WithoutHolds(s.targets, target);
  }

  lemma StepKeepsValid(s: Rows, e: Event, t: Rows)
    requires s.Valid() && Step(s, e, t)
    ensures t.Valid()
  {
    match e
    case DeleteLink(name) =>
      if t != s {
        var owner :| Owns(s.Names(), owner, name) && t == Detach(s, owner);
        WithoutHolds(s.targets, owner);
      }
    case OldDetach(target) => WithoutHolds(s.targets, target);
    case _ =>
  }

  ghost predicate NamesClash(s: Rows) {
    !ChosenDistinct(s.targets, s.stored)
  }

  /** The target is associated under one spelling only, the one the request uses. */
  ghost predicate OneSpelling(s: Rows, target: Target) {
    forall t | t in s.targets && EqualFold(t, target) :: t == target
  }

  lemma ChosenOf(s: Rows, t: Target)
    requires s.Valid()
    ensures t in Chosen(s.targets, s.stored) <==> Named(s.stored, t)
    ensures Named(s.stored, t) ==> Chosen(s.targets, s.stored)[t] == s.stored[t]
  {
  }

  /** The chosen names after a PUT: the new one on every spelling of its target, the rest as before. */
  lemma ChosenAfterPut(s: Rows, target: Target, name: string)
    requires s.Valid() && name != ""
    ensures var after := Chosen(Put(s, target, name).targets, Put(s, target, name).stored);
            && (forall u :: u in after <==>
                  u == target || (u in s.targets && (EqualFold(u, target) || Named(s.stored, u))))
            && (forall u | u in after && EqualFold(u, target) :: after[u] == name)
            && (forall u | u in after && !EqualFold(u, target) :: Named(s.stored, u) && after[u] == s.stored[u])
  {
  }

  /** No other target has chosen this name. */
  ghost predicate NotChosenElsewhere(s: Rows, target: Target, name: string) {
    forall u | u in s.targets && Named(s.stored, u) && EqualFold(s.stored[u], name) :: EqualFold(u, target)
  }

  /** A PUT KEEPS THE CHOSEN NAMES APART exactly when its target is associated under the one spelling it
      uses, since the store names every spelling alike, and no other target has chosen the name. */
  lemma PutKeepsNamesApart(s: Rows, target: Target, name: string)
    requires s.Valid() && name != "" && !NamesClash(s)
    ensures !NamesClash(Put(s, target, name)) <==> OneSpelling(s, target) && NotChosenElsewhere(s, target, name)
  {
    hide Put, Chosen;
    var t := Put(s, target, name);
    ChosenAfterPut(s, target, name);
    var before, after := Chosen(s.targets, s.stored), Chosen(t.targets, t.stored);
    if OneSpelling(s, target) && NotChosenElsewhere(s, target, name) {
      forall a, b | a in after && b in after && a != b ensures !EqualFold(after[a], after[b]) {
        if a != target && b != target {
          ChosenOf(s, a);
          ChosenOf(s, b);
          assert before[a] == after[a] && before[b] == after[b];
        }
      }
    } else if u :| u in s.targets && EqualFold(u, target) && u != target {
      assert u in after && EqualFold(after[u], after[target]);
    } else {
      var u :| u in s.targets && Named(s.stored, u) && EqualFold(s.stored[u], name) && !EqualFold(u, target);
      assert u in after && EqualFold(after[u], after[target]);
    }
  }

  /** Where no two targets go by one name, `putLink` has looked for such a target. */
  lemma MayPutMeansNotChosen(s: Rows, target: Target, name: string)
    requires s.Valid() && Unambiguous(s.Names()) && MayPut(s, target, name)
    ensures NotChosenElsewhere(s, target, name)
  {
    hide Effective;
    EffectiveNamesAll(s.targets, s.stored);
    forall u | u in s.targets && Named(s.stored, u) && EqualFold(s.stored[u], name) ensures EqualFold(u, target) {
      assert Owns(s.Names(), u, name);
    }
  }

  lemma OtherStepsKeepNamesApart(s: Rows, e: Event, t: Rows)
    requires s.Valid() && !NamesClash(s) && Step(s, e, t) && !e.PutLink?
    ensures !NamesClash(t)
  {
    hide Effective;
    var before, after := Chosen(s.targets, s.stored), Chosen(t.targets, t.stored);
    forall u | u in after ensures u in before && after[u] == before[u] {
    }
  }

  // --- Whole runs ---

  /** A run of requests, each on the rows its predecessor left. */
  ghost predicate Run(states: seq<Rows>, events: seq<Event>) {
    && |states| == |events| + 1 && states[0].Valid()
    && forall k | 0 <= k < |events| :: Step(states[k], events[k], states[k + 1])
  }

  /** No unnamed target finds its whole chain of candidates taken. */
  ghost predicate NoneExhausted(s: Rows) {
    forall t | t in s.targets && !Named(s.stored, t) :: !Exhausted(t, s.stored, s.Names())
  }

  /** A PUT that took effect named one spelling, and by a name that no other target had chosen. */
  ghost predicate Careful(s: Rows, e: Event, t: Rows) {
    e.PutLink? && t != s ==> OneSpelling(s, e.target) && NotChosenElsewhere(s, e.target, e.name)
  }

  /** EXACTLY WHICH RUNS KEEP THE CHOSEN NAMES APART: those from a collection where they are, in which
      every PUT that takes effect is careful. */
  lemma {:induction false} RunKeepsNamesApart(states: seq<Rows>, events: seq<Event>, n: nat)
    requires Run(states, events) && n < |states|
    ensures states[n].Valid()
    ensures (forall k | 0 <= k <= n :: !NamesClash(states[k])) <==>
              !NamesClash(states[0]) && forall k | 0 <= k < n :: Careful(states[k], events[k], states[k + 1])
  {
    hide Effective, NamesClash, OneSpelling, NotChosenElsewhere, MayPut;
    if n > 0 {
      RunKeepsNamesApart(states, events, n - 1);
      var s, e, t := states[n - 1], events[n - 1], states[n];
      assert Step(s, e, t);
      StepKeepsValid(s, e, t);
      if !NamesClash(s) && !e.PutLink? {
        OtherStepsKeepNamesApart(s, e, t);
      } else if !NamesClash(s) && t != s {
        PutKeepsNamesApart(s, e.target, e.name);
      }
    }
  }

  /** STORED NAMES STAY DISTINCT over every run from a collection where they are, as long as no unnamed
      target is exhausted and no PUT respells a target; and then a name has at most one owner. */
  lemma {:induction false} NamesStayApart(states: seq<Rows>, events: seq<Event>, n: nat)
    requires Run(states, events) && n < |states| && !NamesClash(states[0])
    requires forall k | 0 <= k < |states| :: NoneExhausted(states[k])
    requires forall k | 0 <= k < |events| && events[k].PutLink? :: OneSpelling(states[k], events[k].target)
    ensures states[n].Valid() && !NamesClash(states[n]) && Unambiguous(states[n].Names())
    ensures forall name, a, b | Owns(states[n].Names(), a, name) && Owns(states[n].Names(), b, name) :: a == b
  {
    hide Effective, NamesClash, Exhausted, OneSpelling, MayPut, NotChosenElsewhere;
    if n > 0 {
      NamesStayApart(states, events, n - 1);
      var s, e, t := states[n - 1], events[n - 1], states[n];
      assert Step(s, e, t);
      StepKeepsValid(s, e, t);
      if !e.PutLink? {
        OtherStepsKeepNamesApart(s, e, t);
      } else if t != s {
        PutKeepsNamesApart(s, e.target, e.name);
        MayPutMeansNotChosen(s, e.target, e.name);
      }
    }
    UnclashedIsUnambiguous(states[n]);
  }

  lemma UnclashedIsUnambiguous(s: Rows)
    requires s.Valid() && !NamesClash(s) && NoneExhausted(s)
    ensures Unambiguous(s.Names())
  {
    EffectiveIsUnambiguous(s.targets, s.stored);
  }

  /** An accepted PUT can be read back: its target answers to the name it was given. */
  lemma PutIsReadBack(s: Rows, target: Target, name: string)
    requires s.Valid() && name != ""
    ensures Put(s, target, name).Valid() && Owns(Put(s, target, name).Names(), target, name)
  {
    hide Effective;
    var t := Put(s, target, name);
    EffectiveNamesAll(t.targets, t.stored);
  }
}
