/** The controllable clock, internal/clock/clock.go. Wall-clock seconds are handed to each operation
    as the reading it takes, so that a run is a sequence of operations and readings. */
module Clock {

  /** The clock's fields. */
  datatype State = State(offset: int, frozen: bool, frozenAt: int) {
    /** What `Now` answers when the wall clock reads `wall`. */
    function At(wall: int): int {
      if frozen then frozenAt else wall + offset
    }
  }

  datatype Operation = Tick | Advance(seconds: int) | SetOffset(seconds: int) | Freeze | Unfreeze

  /** What an operation leaves, if the wall clock reads `wall` when it runs. */
  function Apply(s: State, op: Operation, wall: int): State {
    match op
    case Tick => s
    case Advance(seconds) =>
      if s.frozen then s.(frozenAt := s.frozenAt + seconds) else s.(offset := s.offset + seconds)
    case SetOffset(seconds) => s.(offset := seconds, frozen := false)
    case Freeze => if s.frozen then s else s.(frozenAt := wall + s.offset, frozen := true)
    case Unfreeze => if s.frozen then s.(offset := s.frozenAt - wall, frozen := false) else s
  }

  class Clock {
    var offset: int
    var frozen: bool
    var frozenAt: int

    constructor ()
      ensures View() == State(0, false, 0)
    {
      offset, frozen, frozenAt := 0, false, 0;
    }

    ghost function View(): State
      reads this
    {
      State(offset, frozen, frozenAt)
    }

    method Now(wall: int) returns (seconds: int)
      ensures seconds == View().At(wall)
    {
      if frozen {
        return frozenAt;
      }
      return wall + offset;
    }

    method Advance(seconds: int)
      modifies this
      ensures forall wall :: View().At(wall) == old(View()).At(wall) + seconds
      ensures frozen == old(frozen) && View() == Apply(old(View()), Operation.Advance(seconds), 0)
    {
      if frozen {
        frozenAt := frozenAt + seconds;
      } else {
        offset := offset + seconds;
      }
    }

    method SetOffset(seconds: int)
      modifies this
      ensures forall wall :: View().At(wall) == wall + seconds
      ensures View() == Apply(old(View()), Operation.SetOffset(seconds), 0)
    {
      offset := seconds;
      frozen := false;
    }

    method Freeze(wall: int)
      modifies this
      ensures forall later :: View().At(later) == old(View()).At(wall)
      ensures View() == Apply(old(View()), Operation.Freeze, wall)
    {
      if !frozen {
        frozenAt := wall + offset;
        frozen := true;
      }
    }

    method Unfreeze(wall: int)
      modifies this
      ensures forall later :: View().At(later) == old(View()).At(wall) + (later - wall)
      ensures !frozen && View() == Apply(old(View()), Operation.Unfreeze, wall)
    {
      if frozen {
        offset := frozenAt - wall;
        frozen := false;
      }
    }

    /** The state reports the same time as `Now`, and an offset from the wall clock that gives it. */
    method Report(wall: int) returns (offset_: int, frozen_: bool, seconds: int)
      ensures frozen_ == frozen && seconds == View().At(wall) && offset_ == seconds - wall
    {
      if frozen {
        return frozenAt - wall, true, frozenAt;
      }
      return offset, false, wall + offset;
    }
  }

  // --- Runs ---

  /** An operation and the wall-clock reading at which it runs. */
  type Step = (Operation, int)

  function Run(s: State, steps: seq<Step>): State
    decreases |steps|
  {
    if steps == [] then s else Run(Apply(s, steps[0].0, steps[0].1), steps[1..])
  }

  /** Nothing sets the offset outright, and time is only advanced forwards. */
  predicate Forward(steps: seq<Step>) {
    forall k | 0 <= k < |steps| :: !steps[k].0.SetOffset? && (steps[k].0.Advance? ==> steps[k].0.seconds >= 0)
  }

  /** The wall clock never goes back, from `from` through the steps to `to`. */
  predicate Rising(from: int, steps: seq<Step>, to: int)
    decreases |steps|
  {
    if steps == [] then from <= to else from <= steps[0].1 && Rising(steps[0].1, steps[1..], to)
  }

  /** The seconds added by hand. */
  function Advanced(steps: seq<Step>): int {
    if steps == [] then 0
    else (if steps[0].0.Advance? then steps[0].0.seconds else 0) + Advanced(steps[1..])
  }

  /** The wall-clock seconds that passed while the clock was not frozen. */
  function Thawed(s: State, from: int, steps: seq<Step>, to: int): int
    decreases |steps|
  {
    var until := if steps == [] then to else steps[0].1;
    (if s.frozen then 0 else until - from)
    + if steps == [] then 0 else Thawed(Apply(s, steps[0].0, steps[0].1), until, steps[1..], to)
  }

  /** EVERY SECOND IS ACCOUNTED FOR. Over any run that does not set the offset, controlled time moves by
      exactly the seconds advanced and the wall-clock seconds spent thawed. */
  lemma {:induction false} TimeIsConserved(s: State, from: int, steps: seq<Step>, to: int)
    requires forall k | 0 <= k < |steps| :: !steps[k].0.SetOffset?
    ensures Run(s, steps).At(to) == s.At(from) + Advanced(steps) + Thawed(s, from, steps, to)
    decreases |steps|
  {
    if steps != [] {
      TimeIsConserved(Apply(s, steps[0].0, steps[0].1), steps[0].1, steps[1..], to);
    }
  }

  lemma {:induction false} AdvancedIsForward(steps: seq<Step>)
    requires Forward(steps)
    ensures Advanced(steps) >= 0
  {
    if steps != [] {
      AdvancedIsForward(steps[1..]);
    }
  }

  lemma {:induction false} ThawedIsForward(s: State, from: int, steps: seq<Step>, to: int)
    requires Rising(from, steps, to)
    ensures Thawed(s, from, steps, to) >= 0
    decreases |steps|
  {
    if steps != [] {
      ThawedIsForward(Apply(s, steps[0].0, steps[0].1), steps[0].1, steps[1..], to);
    }
  }

  /** CONTROLLED TIME NEVER DECREASES while the wall clock does not and no offset is set. */
  lemma NowNeverDecreases(s: State, from: int, steps: seq<Step>, to: int)
    requires Forward(steps) && Rising(from, steps, to)
    ensures s.At(from) <= Run(s, steps).At(to)
  {
    TimeIsConserved(s, from, steps, to);
    AdvancedIsForward(steps);
    ThawedIsForward(s, from, steps, to);
  }

  /** Setting an offset takes controlled time back exactly when it names an earlier instant. */
  lemma SetOffsetGoesBack(s: State, seconds: int, wall: int)
    ensures Apply(s, SetOffset(seconds), wall).At(wall) < s.At(wall) <==> wall + seconds < s.At(wall)
  {
  }

  /** Controlled time never goes back: between two operations, and at the instant of each. */
  predicate NeverDecreases(s: State, from: int, steps: seq<Step>, to: int)
    decreases |steps|
  {
    if steps == [] then s.At(from) <= s.At(to)
    else
      var (op, wall) := steps[0];
      && s.At(from) <= s.At(wall) <= Apply(s, op, wall).At(wall)
      && NeverDecreases(Apply(s, op, wall), wall, steps[1..], to)
  }

  /** No step of the run names an earlier instant, by hand or by offset. */
  predicate NoneSetsBack(s: State, steps: seq<Step>)
    decreases |steps|
  {
    steps == []
    || (var (op, wall) := steps[0];
        && (op.Advance? ==> op.seconds >= 0)
        && (op.SetOffset? ==> wall + op.seconds >= s.At(wall))
        && NoneSetsBack(Apply(s, op, wall), steps[1..]))
  }

  /** EXACTLY WHICH RUNS NEVER GO BACK, of all operations, while the wall clock does not. */
  lemma {:induction false} RunsThatNeverGoBack(s: State, from: int, steps: seq<Step>, to: int)
    requires Rising(from, steps, to)
    ensures NeverDecreases(s, from, steps, to) <==> NoneSetsBack(s, steps)
    decreases |steps|
  {
    if steps != [] {
      var (op, wall) := steps[0];
      RunsThatNeverGoBack(Apply(s, op, wall), wall, steps[1..], to);
    }
  }
}
