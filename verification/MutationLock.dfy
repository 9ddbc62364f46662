/** Conditional writes as a concurrent protocol: `ServeHTTP` in internal/arm/handler.go takes one
    lock around the probe, the decision and the write of every mutating request. Any number of
    requests run their steps in any interleaving. */
module MutationLock {
  import opened Wrappers
  import opened Conditional

  type Id = string

  /** The current tag of every resource. */
  type Store = map<Id, string>

  datatype Request = Request(m: Method, id: Id, ifMatch: HeaderTags, ifNoneMatch: HeaderTags, required: bool) {
    /** What takes the lock: everything but GET, HEAD and OPTIONS. */
    predicate Mutating() {
      m != GET && m != HEAD && m != OPTIONS
    }

    /** Whether the decision looks at the resource at all. */
    predicate Probes() {
      && ifMatch != Invalid && ifNoneMatch != Invalid && !(required && ifMatch == Absent)
      && (ifMatch.Tags? || ifNoneMatch.Tags?) && Writing(m)
    }
  }

  /** Where a request stands. A probed or admitted one remembers what its probe saw. */
  datatype Stage =
    | Waiting
    | Holding
    | Probed(seen: Probe)
    | Admitted(seen: Probe)
    | Written
    | Finished

  /** One write, by one request: the store before and after. */
  datatype Commit = Commit(writer: nat, before: Store, after: Store)

  datatype State = State(
    store: Store,
    issued: set<string>,     // every tag the store ever gave out
    holder: Option<nat>,     // the request that holds the lock
    stages: seq<Stage>,
    log: seq<Commit>)

  function VersionOf(store: Store, id: Id): Version {
    if id in store then Some(store[id]) else None
  }

  /** A GET's answer for a resource: found with its tag, or not found. */
  ghost predicate Answers(probe: Probe, store: Store, id: Id) {
    probe.Current() == VersionOf(store, id)
  }

  ghost predicate Critical(stage: Stage) {
    stage.Holding? || stage.Probed? || stage.Admitted? || stage.Written?
  }

  ghost predicate Initial(requests: seq<Request>, s: State) {
    && s.issued == s.store.Values && s.holder == None && s.log == []
    && |s.stages| == |requests| && (forall i | 0 <= i < |requests| :: s.stages[i] == Waiting)
  }

  // --- The steps of one request ---

  ghost predicate Acquire(requests: seq<Request>, s: State, t: State, i: nat)
    requires i < |requests| == |s.stages|
  {
    && s.stages[i] == Waiting && requests[i].Mutating() && s.holder == None
    && t == s.(holder := Some(i), stages := s.stages[i := Holding])
  }

  /** A request that takes no lock reads the store and is done. */
  ghost predicate ReadOnly(requests: seq<Request>, s: State, t: State, i: nat)
    requires i < |requests| == |s.stages|
  {
    && s.stages[i] == Waiting && !requests[i].Mutating()
    && t == s.(stages := s.stages[i := Finished])
  }

  ghost predicate TakeProbe(requests: seq<Request>, s: State, t: State, i: nat, probe: Probe)
    requires i < |requests| == |s.stages|
  {
    && s.stages[i] == Holding && requests[i].Probes() && Answers(probe, s.store, requests[i].id)
    && t == s.(stages := s.stages[i := Probed(probe)])
  }

  /** The decision, on the probe if there was one. A refusal releases the lock. */
  ghost predicate DecideStep(requests: seq<Request>, s: State, t: State, i: nat, probe: Probe)
    requires i < |requests| == |s.stages|
  {
    var r := requests[i];
    && (if r.Probes() then s.stages[i] == Probed(probe) else s.stages[i] == Holding)
    && if Decide(r.m, r.ifMatch, r.ifNoneMatch, r.required, probe) == Proceed
       then t == s.(stages := s.stages[i := Admitted(probe)])
       else t == s.(holder := None, stages := s.stages[i := Finished])
  }

  /** What a store holds anew carries a tag never given out before. */
  ghost predicate Issues(s: State, after: Store) {
    forall id | id in after :: VersionOf(s.store, id) == Some(after[id]) || after[id] !in s.issued
  }

  /** The handler's write. It may change or remove any resource, or none if it fails; what it stores
      anew carries a tag the store never gave out before. */
  ghost predicate Write(requests: seq<Request>, s: State, t: State, i: nat, after: Store)
    requires i < |requests| == |s.stages|
  {
    && s.stages[i].Admitted?
    && Issues(s, after)
    && t == State(after, s.issued + after.Values, s.holder, s.stages[i := Written], s.log + [Commit(i, s.store, after)])
  }

  ghost predicate Release(requests: seq<Request>, s: State, t: State, i: nat)
    requires i < |requests| == |s.stages|
  {
    && s.stages[i] == Written
    && t == s.(holder := None, stages := s.stages[i := Finished])
  }

  ghost predicate Next(requests: seq<Request>, s: State, t: State) {
    && |s.stages| == |requests|
    && exists i: nat, probe: Probe, after: Store | i < |requests| :: StepBy(requests, s, t, i, probe, after)
  }

  ghost predicate StepBy(requests: seq<Request>, s: State, t: State, i: nat, probe: Probe, after: Store)
    requires i < |requests| == |s.stages|
  {
    || Acquire(requests, s, t, i) || ReadOnly(requests, s, t, i) || TakeProbe(requests, s, t, i, probe)
    || DecideStep(requests, s, t, i, probe) || Write(requests, s, t, i, after) || Release(requests, s, t, i)
  }

  /** A run: the states of some interleaving. */
  ghost predicate Run(requests: seq<Request>, states: seq<State>) {
    && states != [] && Initial(requests, states[0])
    && forall k | 0 < k < |states| :: Next(requests, states[k - 1], states[k])
  }

  // --- What every step keeps ---

  /** Only the holder of the lock is between acquiring and releasing it. */
  ghost predicate LockInv(requests: seq<Request>, s: State) {
    && |s.stages| == |requests| && (s.holder.Some? ==> s.holder.value < |requests|)
    && forall i | 0 <= i < |requests| :: Critical(s.stages[i]) <==> s.holder == Some(i)
  }

  /** What the holder's probe saw is still so. */
  ghost predicate ProbeInv(requests: seq<Request>, s: State)
    requires |s.stages| == |requests|
  {
    forall i | 0 <= i < |requests| && requests[i].Probes() ::
      && (s.stages[i].Probed? ==> Answers(s.stages[i].seen, s.store, requests[i].id))
      && (s.stages[i].Admitted? ==> Answers(s.stages[i].seen, s.store, requests[i].id))
  }

  ghost predicate Passed(r: Request, probe: Probe) {
    Decide(r.m, r.ifMatch, r.ifNoneMatch, r.required, probe) == Proceed
  }

  /** Only a request that looks has looked, and an admitted one passed its decision. */
  ghost predicate AdmittedInv(requests: seq<Request>, s: State)
    requires |s.stages| == |requests|
  {
    && (forall i | 0 <= i < |requests| && s.stages[i].Probed? :: requests[i].Probes())
    && (forall i | 0 <= i < |requests| && s.stages[i].Admitted? :: Passed(requests[i], s.stages[i].seen))
  }

  /** A committed write passed its decision, on the very store it replaced if the decision looked at it. */
  ghost predicate CommitHonest(requests: seq<Request>, c: Commit) {
    && c.writer < |requests|
    && exists probe ::
         Passed(requests[c.writer], probe)
         && (requests[c.writer].Probes() ==> Answers(probe, c.before, requests[c.writer].id))
  }

  /** The commits form one history, and every tag in it was given out. */
  ghost predicate HistoryInv(requests: seq<Request>, s: State) {
    && (forall k | 0 <= k < |s.log| :: CommitHonest(requests, s.log[k]))
    && (forall k | 0 < k < |s.log| :: s.log[k].before == s.log[k - 1].after)
    && (s.log != [] ==> s.log[|s.log| - 1].after == s.store)
    && s.store.Values <= s.issued
    && (forall k | 0 <= k < |s.log| :: s.log[k].before.Values <= s.issued && s.log[k].after.Values <= s.issued)
  }

  /** Commit `c` takes the version with this tag away. */
  ghost predicate Supersedes(c: Commit, id: Id, tag: string) {
    VersionOf(c.before, id) == Some(tag) && VersionOf(c.after, id) != Some(tag)
  }

  /** A superseded version never comes back. */
  ghost predicate NeverBack(s: State) {
    && (forall k, id, tag | 0 <= k < |s.log| && Supersedes(s.log[k], id, tag) :: VersionOf(s.store, id) != Some(tag))
    && (forall j, k, id, tag | 0 <= j < k < |s.log| && Supersedes(s.log[j], id, tag) ::
          VersionOf(s.log[k].before, id) != Some(tag))
  }

  ghost predicate Inv(requests: seq<Request>, s: State) {
    && LockInv(requests, s) && ProbeInv(requests, s) && AdmittedInv(requests, s)
    && HistoryInv(requests, s) && NeverBack(s)
  }

  lemma InitialKeeps(requests: seq<Request>, s: State)
    requires Initial(requests, s)
    ensures Inv(requests, s)
  {
  }

  /** Steps that do not write: the lock and the stage of one request change, the store does not. */
  lemma QuietStepKeeps(requests: seq<Request>, s: State, t: State, i: nat)
    requires i < |requests| == |s.stages| && Inv(requests, s)
    requires t.store == s.store && t.issued == s.issued && t.log == s.log
    requires |t.stages| == |s.stages| && forall j | 0 <= j < |requests| && j != i :: t.stages[j] == s.stages[j]
    requires LockInv(requests, t)
    requires requests[i].Probes() && (t.stages[i].Probed? || t.stages[i].Admitted?) ==>
               Answers(t.stages[i].seen, s.store, requests[i].id)
    requires t.stages[i].Probed? ==> requests[i].Probes()
    requires t.stages[i].Admitted? ==> Passed(requests[i], t.stages[i].seen)
    ensures Inv(requests, t)
  {
  }

  lemma WriteKeeps(requests: seq<Request>, s: State, t: State, i: nat, after: Store)
    requires i < |requests| == |s.stages| && Inv(requests, s) && Write(requests, s, t, i, after)
    ensures Inv(requests, t)
  {
    hide Decide;
    WriteIsHonest(requests, s, i, after);
    WriteKeepsHistory(requests, s, t, i, after);
    WriteNeverBack(requests, s, t, i, after);
  }

  lemma WriteIsHonest(requests: seq<Request>, s: State, i: nat, after: Store)
    requires i < |requests| == |s.stages| && Inv(requests, s) && s.stages[i].Admitted?
    ensures CommitHonest(requests, Commit(i, s.store, after))
  {
    assert Passed(requests[i], s.stages[i].seen);
  }

  lemma WriteKeepsHistory(requests: seq<Request>, s: State, t: State, i: nat, after: Store)
    requires i < |requests| == |s.stages| && Inv(requests, s) && Write(requests, s, t, i, after)
    requires CommitHonest(requests, Commit(i, s.store, after))
    ensures HistoryInv(requests, t)
  {
    hide CommitHonest, LockInv, ProbeInv, AdmittedInv, NeverBack;
    assert t.log == s.log + [Commit(i, s.store, after)];
  }

  lemma WriteNeverBack(requests: seq<Request>, s: State, t: State, i: nat, after: Store)
    requires i < |requests| == |s.stages| && Inv(requests, s) && Write(requests, s, t, i, after)
    ensures NeverBack(t)
  {
    forall k, id, tag | 0 <= k < |t.log| && Supersedes(t.log[k], id, tag)
      ensures VersionOf(t.store, id) != Some(tag)
    {
      if k < |s.log| {
        assert Supersedes(s.log[k], id, tag);
        assert tag in s.log[k].before.Values;
      }
    }
  }

  lemma NextKeeps(requests: seq<Request>, s: State, t: State)
    requires Inv(requests, s) && Next(requests, s, t)
    ensures Inv(requests, t)
  {
    hide Decide, Inv;
    var i: nat, probe: Probe, after: Store :| i < |requests| && StepBy(requests, s, t, i, probe, after);
    if Write(requests, s, t, i, after) {
      WriteKeeps(requests, s, t, i, after);
    } else {
      QuietSteps(requests, s, t, i, probe, after);
    }
  }

  lemma QuietSteps(requests: seq<Request>, s: State, t: State, i: nat, probe: Probe, after: Store)
    requires i < |requests| == |s.stages| && Inv(requests, s)
    requires StepBy(requests, s, t, i, probe, after) && !Write(requests, s, t, i, after)
    ensures Inv(requests, t)
  {
    hide Decide, HistoryInv, NeverBack;
    QuietStepKeeps(requests, s, t, i);
  }

  /** Every state of every interleaving keeps the invariant. */
  lemma {:induction false} RunKeeps(requests: seq<Request>, states: seq<State>, k: nat)
    requires Run(requests, states) && k < |states|
    ensures Inv(requests, states[k])
  {
    hide Inv, Next;
    if k == 0 {
      InitialKeeps(requests, states[0]);
    } else {
      RunKeeps(requests, states, k - 1);
      NextKeeps(requests, states[k - 1], states[k]);
    }
  }

  // --- No lost update, and create once ---

  /** REFUSED REQUESTS NEVER WRITE, in every interleaving: whoever wrote sent conditions that are lists of
      tags, and an `If-Match` where one is required. */
  lemma RefusedNeverWrites(requests: seq<Request>, states: seq<State>, n: nat, k: nat,
                           ifMatch: seq<string>, ifNoneMatch: seq<string>)
    requires Run(requests, states) && n < |states| && k < |states[n].log|
    ensures states[n].log[k].writer < |requests|
    ensures var r := requests[states[n].log[k].writer];
            && r.ifMatch != Invalid && r.ifNoneMatch != Invalid && (r.required ==> r.ifMatch.Tags?)
            && (r.ifMatch == HeaderOf(ifMatch) ==> WellFormed(ifMatch) && (r.required ==> ifMatch != []))
            && (r.ifNoneMatch == HeaderOf(ifNoneMatch) ==> WellFormed(ifNoneMatch))
  {
    hide HeaderOf, WellFormed;
    RunKeeps(requests, states, n);
    assert CommitHonest(requests, states[n].log[k]);
    HeaderSays(ifMatch);
    HeaderSays(ifNoneMatch);
  }

  /** A write that asked for particular versions: `If-Match` with tags and no star. */
  ghost predicate AsksForVersion(r: Request) {
    Writing(r.m) && r.ifMatch.Tags? && "*" !in r.ifMatch.tags
  }

  /** NO LOST UPDATE, in every interleaving. A committed write that asked for versions replaced one of
      those it listed, so nothing came between the version its client knew and its write. And no two
      commits take away the same version. */
  lemma NoLostUpdate(requests: seq<Request>, states: seq<State>, n: nat)
    requires Run(requests, states) && n < |states|
    ensures forall k | 0 <= k < |states[n].log| ::
              var c := states[n].log[k];
              && c.writer < |requests|
              && (AsksForVersion(requests[c.writer]) ==>
                    exists tag | tag in requests[c.writer].ifMatch.tags ::
                      !IsWeak(tag) && VersionOf(c.before, requests[c.writer].id) == Some(tag))
    ensures forall j, k, id, tag | 0 <= j < |states[n].log| && 0 <= k < |states[n].log| ::
              Supersedes(states[n].log[j], id, tag) && Supersedes(states[n].log[k], id, tag) ==> j == k
  {
    RunKeeps(requests, states, n);
    var s := states[n];
    forall k | 0 <= k < |s.log| && AsksForVersion(requests[s.log[k].writer])
      ensures var c := s.log[k];
              exists tag | tag in requests[c.writer].ifMatch.tags ::
                !IsWeak(tag) && VersionOf(c.before, requests[c.writer].id) == Some(tag)
    {
      assert CommitHonest(requests, s.log[k]);
      PassedIfMatch(requests[s.log[k].writer], s.log[k].before);
    }
  }

  lemma PassedIfMatch(r: Request, before: Store)
    requires AsksForVersion(r)
    requires exists probe :: Passed(r, probe) && (r.Probes() ==> Answers(probe, before, r.id))
    ensures exists tag | tag in r.ifMatch.tags :: !IsWeak(tag) && VersionOf(before, r.id) == Some(tag)
  {
    var probe :| Passed(r, probe) && (r.Probes() ==> Answers(probe, before, r.id));
    assert IfMatchHolds(r.ifMatch.tags, VersionOf(before, r.id));
    var tag :| tag in r.ifMatch.tags && StrongEqual(tag, VersionOf(before, r.id).value);
  }

  /** Of the writes to one resource that all insist on the same version, at most one changes it. */
  lemma OneWriterPerVersion(requests: seq<Request>, states: seq<State>, n: nat, j: nat, k: nat, id: Id, tag: string)
    requires Run(requests, states) && n < |states| && j < |states[n].log| && k < |states[n].log|
    requires forall c | c in {states[n].log[j], states[n].log[k]} ::
               c.writer < |requests| && requests[c.writer].id == id && Writing(requests[c.writer].m)
               && requests[c.writer].ifMatch == Tags([tag]) && tag != "*"
               && VersionOf(c.after, id) != VersionOf(c.before, id)
    ensures j == k
  {
    NoLostUpdate(requests, states, n);
    assert Supersedes(states[n].log[j], id, tag);
    assert Supersedes(states[n].log[k], id, tag);
  }

  /** A PUT that insists the resource does not exist yet. */
  ghost predicate Creates(requests: seq<Request>, c: Commit, id: Id) {
    && c.writer < |requests| && requests[c.writer].id == id
    && requests[c.writer].m == PUT
    && requests[c.writer].ifNoneMatch.Tags? && "*" in requests[c.writer].ifNoneMatch.tags
    && id in c.after
  }

  /** CREATE ONCE, in every interleaving. While nothing removes a resource, at most one
      `PUT If-None-Match: *` creates it, and it did not exist before that. */
  lemma CreateOnce(requests: seq<Request>, states: seq<State>, n: nat, id: Id)
    requires Run(requests, states) && n < |states|
    requires forall k | 0 <= k < |states[n].log| :: id in states[n].log[k].before ==> id in states[n].log[k].after
    ensures forall k | 0 <= k < |states[n].log| && Creates(requests, states[n].log[k], id) ::
              id !in states[n].log[k].before
    ensures forall j, k | 0 <= j < |states[n].log| && 0 <= k < |states[n].log| ::
              Creates(requests, states[n].log[j], id) && Creates(requests, states[n].log[k], id) ==> j == k
  {
    RunKeeps(requests, states, n);
    var log := states[n].log;
    forall k | 0 <= k < |log| && Creates(requests, log[k], id) ensures id !in log[k].before {
      assert CommitHonest(requests, log[k]);
      PassedCreate(requests[log[k].writer], log[k].before);
    }
    forall j, k | 0 <= j < k < |log| && id in log[j].after ensures id in log[k].before {
      StaysCreated(log, id, j, k);
    }
  }

  lemma PassedCreate(r: Request, before: Store)
    requires Writing(r.m) && r.ifNoneMatch.Tags? && "*" in r.ifNoneMatch.tags
    requires exists probe :: Passed(r, probe) && (r.Probes() ==> Answers(probe, before, r.id))
    ensures r.id !in before
  {
    var probe :| Passed(r, probe) && (r.Probes() ==> Answers(probe, before, r.id));
    assert IfNoneMatchHolds(r.ifNoneMatch.tags, VersionOf(before, r.id));
  }

  lemma {:induction false} StaysCreated(log: seq<Commit>, id: Id, j: nat, k: nat)
    requires j < k < |log| && id in log[j].after
    requires forall m | 0 < m < |log| :: log[m].before == log[m - 1].after
    requires forall m | 0 <= m < |log| :: id in log[m].before ==> id in log[m].after
    ensures id in log[k].before
    decreases k
  {
    if j < k - 1 {
      StaysCreated(log, id, j, k - 1);
    }
  }

  // --- Nobody waits for ever ---

  /** Some steps of some requests lead from one state to the other. */
  ghost predicate Path(requests: seq<Request>, states: seq<State>, s: State, t: State) {
    && states != [] && states[0] == s && states[|states| - 1] == t
    && forall k | 0 < k < |states| :: Next(requests, states[k - 1], states[k])
  }

  ghost predicate Reaches(requests: seq<Request>, s: State, t: State) {
    exists states :: Path(requests, states, s, t)
  }

  lemma OneMoreStep(requests: seq<Request>, s: State, t: State, u: State, i: nat, probe: Probe, after: Store)
    requires Reaches(requests, s, t) && i < |requests| == |t.stages|
    requires StepBy(requests, t, u, i, probe, after)
    ensures Reaches(requests, s, u)
  {
    hide StepBy;
    var states :| Path(requests, states, s, t);
    assert Next(requests, t, u);
    assert Path(requests, states + [u], s, u) by { hide Next; }
  }

  /** What a decision of request `i` would be taken on: what it sees of the store, if it looks. */
  ghost predicate WouldSee(requests: seq<Request>, s: State, i: nat, probe: Probe)
    requires i < |requests|
  {
    requests[i].Probes() ==> Answers(probe, s.store, requests[i].id)
  }

  /** A request that may take the free lock now. */
  ghost predicate MayStart(requests: seq<Request>, s: State, i: nat) {
    && i < |requests| == |s.stages|
    && s.holder == None && s.stages[i] == Waiting && (Writing(requests[i].m) || requests[i].m == POST)
  }

  function BeforeDecision(r: Request, probe: Probe): Stage {
    if r.Probes() then Probed(probe) else Holding
  }

  /** From a free lock to the decision. */
  lemma UpToDecision(requests: seq<Request>, s: State, i: nat, probe: Probe)
    requires MayStart(requests, s, i) && WouldSee(requests, s, i, probe)
    ensures Reaches(requests, s,
                    s.(holder := Some(i), stages := s.stages[i := BeforeDecision(requests[i], probe)]))
  {
    hide Decide, Reaches, Request.Probes, Answers;
    var held := s.(holder := Some(i), stages := s.stages[i := Holding]);
    assert Reaches(requests, s, s) by { Here(requests, s); }
    assert StepBy(requests, s, held, i, probe, s.store);
    OneMoreStep(requests, s, s, held, i, probe, s.store);
    if requests[i].Probes() {
      var seen := held.(stages := held.stages[i := Probed(probe)]);
      assert seen.stages == s.stages[i := Probed(probe)];
      assert StepBy(requests, held, seen, i, probe, s.store);
      OneMoreStep(requests, s, held, seen, i, probe, s.store);
    }
  }

  lemma Here(requests: seq<Request>, s: State)
    ensures Reaches(requests, s, s)
  {
    assert Path(requests, [s], s, s);
  }

  /** WHO PASSES IS SERVED. Wherever the lock is free, a waiting request whose decision would let it pass can
      write whatever its handler makes of the store, and gives the lock back. */
  lemma PassingIsServed(requests: seq<Request>, s: State, i: nat, probe: Probe, after: Store)
    requires MayStart(requests, s, i) && WouldSee(requests, s, i, probe) && Passed(requests[i], probe)
    requires Issues(s, after)
    ensures Reaches(requests, s, State(after, s.issued + after.Values, None, s.stages[i := Finished],
                                       s.log + [Commit(i, s.store, after)]))
  {
    hide Decide, Reaches, Request.Probes, Answers, Issues;
    UpToDecision(requests, s, i, probe);
    var ready := s.(holder := Some(i), stages := s.stages[i := BeforeDecision(requests[i], probe)]);
    var admitted := s.(holder := Some(i), stages := s.stages[i := Admitted(probe)]);
    assert admitted.stages == ready.stages[i := Admitted(probe)];
    assert DecideStep(requests, ready, admitted, i, probe);
    OneMoreStep(requests, s, ready, admitted, i, probe, after);
    var log := s.log + [Commit(i, s.store, after)];
    var written := State(after, s.issued + after.Values, Some(i), s.stages[i := Written], log);
    assert written.stages == admitted.stages[i := Written];
    IssuesAlike(s, admitted, after);
    assert Write(requests, admitted, written, i, after);
    OneMoreStep(requests, s, admitted, written, i, probe, after);
    var done := State(after, s.issued + after.Values, None, s.stages[i := Finished], log);
    assert done.stages == written.stages[i := Finished];
    assert Release(requests, written, done, i);
    OneMoreStep(requests, s, written, done, i, probe, after);
  }

  lemma IssuesAlike(s: State, t: State, after: Store)
    requires s.store == t.store && s.issued == t.issued
    ensures Issues(s, after) <==> Issues(t, after)
  {
  }

  /** WHO IS REFUSED GIVES THE LOCK BACK, and changes nothing. */
  lemma RefusedIsAnswered(requests: seq<Request>, s: State, i: nat, probe: Probe)
    requires MayStart(requests, s, i) && WouldSee(requests, s, i, probe) && !Passed(requests[i], probe)
    ensures Reaches(requests, s, s.(stages := s.stages[i := Finished]))
  {
    hide Decide, Reaches, Request.Probes, Answers;
    UpToDecision(requests, s, i, probe);
    var ready := s.(holder := Some(i), stages := s.stages[i := BeforeDecision(requests[i], probe)]);
    var done := s.(stages := s.stages[i := Finished]);
    assert done.stages == ready.stages[i := Finished];
    assert DecideStep(requests, ready, done, i, probe);
    OneMoreStep(requests, s, ready, done, i, probe, s.store);
  }

  /** How many steps a request can still take. */
  function Left(stage: Stage): nat {
    match stage
    case Waiting => 5
    case Holding => 4
    case Probed(_) => 3
    case Admitted(_) => 2
    case Written => 1
    case Finished => 0
  }

  function StepsLeft(stages: seq<Stage>): nat {
    if stages == [] then 0 else Left(stages[0]) + StepsLeft(stages[1..])
  }

  lemma {:induction false} StepsAfter(stages: seq<Stage>, i: nat, stage: Stage)
    requires i < |stages|
    ensures StepsLeft(stages[i := stage]) == StepsLeft(stages) - Left(stages[i]) + Left(stage)
  {
    if i > 0 {
      assert stages[i := stage][1..] == stages[1..][i - 1 := stage];
      StepsAfter(stages[1..], i - 1, stage);
    }
  }

  /** Every step brings its request nearer to its end. */
  lemma StepIsProgress(requests: seq<Request>, s: State, t: State)
    requires Next(requests, s, t)
    ensures |t.stages| == |s.stages| && StepsLeft(t.stages) < StepsLeft(s.stages)
  {
    hide Decide, Request.Probes, StepsLeft, Answers, Issues;
    var i: nat, probe: Probe, after: Store :| i < |requests| && StepBy(requests, s, t, i, probe, after);
    assert Left(t.stages[i]) < Left(s.stages[i]);
    assert t.stages == s.stages[i := t.stages[i]];
    StepsAfter(s.stages, i, t.stages[i]);
  }

  /** A probe that sees the store as it is. */
  lemma SomethingToSee(store: Store, id: Id) returns (probe: Probe)
    ensures Answers(probe, store, id)
  {
    probe := if id in store then Probe(200, store[id]) else Probe(404, "");
  }

  /** A request that may go on has a next step. */
  lemma SomeStep(requests: seq<Request>, s: State, i: nat)
    requires i < |requests| == |s.stages| && AdmittedInv(requests, s)
    requires s.stages[i] != Finished && (s.stages[i] == Waiting ==> s.holder == None)
    ensures exists t :: Next(requests, s, t)
  {
    hide Decide, Answers, Request.Probes;
    var r := requests[i];
    var seen := SomethingToSee(s.store, r.id);
    var probe := if s.stages[i].Probed? then s.stages[i].seen else seen;
    var log := s.log + [Commit(i, s.store, s.store)];
    var passes := Decide(r.m, r.ifMatch, r.ifNoneMatch, r.required, probe) == Proceed;
    var finished := s.stages[i := Finished];
    var t :=
      if s.stages[i] == Waiting && r.Mutating() then s.(holder := Some(i), stages := s.stages[i := Holding])
      else if s.stages[i] == Waiting then s.(stages := finished)
      else if s.stages[i] == Holding && r.Probes() then s.(stages := s.stages[i := Probed(probe)])
      else if s.stages[i].Admitted?
      then State(s.store, s.issued + s.store.Values, s.holder, s.stages[i := Written], log)
      else if s.stages[i] != Written && passes then s.(stages := s.stages[i := Admitted(probe)])
      else s.(holder := None, stages := finished);
    assert StepBy(requests, s, t, i, probe, s.store);
    assert Next(requests, s, t);
  }

  /** NO DEADLOCK: as long as some request is not served, some step is possible. */
  lemma NoDeadlock(requests: seq<Request>, s: State, i: nat)
    requires Inv(requests, s) && i < |requests| && s.stages[i] != Finished
    ensures exists t :: Next(requests, s, t)
  {
    hide ProbeInv, AdmittedInv, HistoryInv, NeverBack, Request.Probes, Next;
    var j := if s.holder.Some? then s.holder.value else i;
    SomeStep(requests, s, j);
  }

  lemma {:induction false} RunGoesDown(requests: seq<Request>, states: seq<State>, k: nat)
    requires Run(requests, states) && k < |states|
    ensures |states[k].stages| == |requests|
    ensures k + StepsLeft(states[k].stages) <= 5 * |requests|
  {
    hide Next, StepsLeft;
    if k == 0 {
      AllWaiting(states[0].stages);
    } else {
      RunGoesDown(requests, states, k - 1);
      StepIsProgress(requests, states[k - 1], states[k]);
    }
  }

  lemma {:induction false} AllWaiting(stages: seq<Stage>)
    requires forall i | 0 <= i < |stages| :: stages[i] == Waiting
    ensures StepsLeft(stages) == 5 * |stages|
  {
    if stages != [] {
      AllWaiting(stages[1..]);
    }
  }

  /** EVERY REQUEST IS SERVED. A run takes at most five steps a request, and one that can go no further has
      answered them all. */
  lemma EveryRequestIsServed(requests: seq<Request>, states: seq<State>)
    requires Run(requests, states)
    ensures |states| <= 1 + 5 * |requests|
    ensures var last := states[|states| - 1];
            |last.stages| == |requests| && ((exists t :: Next(requests, last, t)) ||
              (last.holder == None && forall i | 0 <= i < |requests| :: last.stages[i] == Finished))
  {
    hide Next, StepsLeft;
    var last := states[|states| - 1];
    RunGoesDown(requests, states, |states| - 1);
    RunKeeps(requests, states, |states| - 1);
    if i :| 0 <= i < |requests| && last.stages[i] != Finished {
      NoDeadlock(requests, last, i);
    }
  }

  /** A run goes on along any path from where it stands. */
  lemma RunGoesOn(requests: seq<Request>, states: seq<State>, t: State) returns (longer: seq<State>)
    requires Run(requests, states) && Reaches(requests, states[|states| - 1], t)
    ensures Run(requests, longer) && states <= longer && longer[|longer| - 1] == t
  {
    hide Next;
    var more :| Path(requests, more, states[|states| - 1], t);
    longer := states + more[1..];
    forall k | 0 < k < |longer| ensures Next(requests, longer[k - 1], longer[k]) {
      if k >= |states| {
        assert longer[k] == more[k - |states| + 1] && longer[k - 1] == more[k - |states|];
      }
    }
  }
}
