/** The goal state machine of rcl_action: src/rcl_action/goal_state_machine.h, with the states and
    events of src/rcl_action/types.h.

    The headers name the states and events but not the edges; the edges are those of the ROS 2
    Actions design article, section "Goal States".
 */
module GoalStates {

  datatype State = Unknown | Accepted | Executing | Canceling | Succeeded | Canceled | Aborted

  datatype Event = Execute | CancelGoal | Succeed | Abort | CanceledEvent

  /** The next state, or Unknown when the event is not valid in the state. */
  function Transition(s: State, e: Event): State {
    match (s, e)
    case (Accepted, Execute) => Executing
    case (Accepted, CancelGoal) => Canceling
    case (Executing, CancelGoal) => Canceling
    case (Executing, Succeed) => Succeeded
    case (Executing, Abort) => Aborted
    case (Canceling, Succeed) => Succeeded
    case (Canceling, Abort) => Aborted
    case (Canceling, CanceledEvent) => Canceled
    case _ => Unknown
  }

  predicate IsActive(s: State) {
    s.Accepted? || s.Executing? || s.Canceling?
  }

  predicate IsTerminal(s: State) {
    s.Succeeded? || s.Canceled? || s.Aborted?
  }

  /** A goal can be canceled while it is accepted or executing. */
  predicate IsCancelable(s: State): (r: bool)
    ensures r <==> s.Accepted? || s.Executing?
  {
    Transition(s, CancelGoal) == Canceling
  }

  /** An invalid event is refused and leaves the goal where it is. */
  function Updated(s: State, e: Event): State {
    var next := Transition(s, e);
    if next.Unknown? then s else next
  }

  /** The edges, state by state: how a goal comes to be where it is after one event. */
  lemma EnteredExactly(s: State, e: Event)
    ensures Updated(s, e).Unknown? <==> s.Unknown?
    ensures Updated(s, e).Accepted? <==> s.Accepted? && e !in {Execute, CancelGoal}
    ensures Updated(s, e).Executing? <==>
            (s.Accepted? && e == Execute) || (s.Executing? && e in {Execute, CanceledEvent})
    ensures Updated(s, e).Canceling? <==>
            (s in {Accepted, Executing} && e == CancelGoal) || (s.Canceling? && e in {Execute, CancelGoal})
    ensures Updated(s, e).Succeeded? <==> s.Succeeded? || (s in {Executing, Canceling} && e == Succeed)
    ensures Updated(s, e).Aborted? <==> s.Aborted? || (s in {Executing, Canceling} && e == Abort)
    ensures Updated(s, e).Canceled? <==> s.Canceled? || (s.Canceling? && e == CanceledEvent)
    ensures Transition(s, e).Unknown? <==>
            match e
            case Execute => !s.Accepted?
            case CancelGoal => s !in {Accepted, Executing}
            case CanceledEvent => !s.Canceling?
            case _ => s !in {Executing, Canceling}
  {
    match e
    case Execute =>
    case CancelGoal =>
    case Succeed =>
    case Abort =>
    case CanceledEvent =>
  }

  function After(s: State, es: seq<Event>): State
    decreases es
  {
    if es == [] then s else After(Updated(s, es[0]), es[1..])
  }

  lemma {:induction false} AfterConcat(s: State, a: seq<Event>, b: seq<Event>)
    ensures After(s, a + b) == After(After(s, a), b)
    decreases a
  {
    if a == [] {
      assert a + b == b;
    } else {
      assert (a + b)[1..] == a[1..] + b;
      AfterConcat(Updated(s, a[0]), a[1..], b);
    }
  }

  /** A goal that has ended stays as it ended, whatever events follow. */
  lemma {:induction false} TerminalIsAbsorbing(s: State, es: seq<Event>)
    requires IsTerminal(s)
    ensures After(s, es) == s
    decreases es
  {
    if es == [] {
    } else {
      TerminalIsAbsorbing(s, es[1..]);
    }
  }

  /** A goal is at every moment either active or terminal, never unknown. */
  lemma {:induction false} ActiveUntilTerminal(s: State, es: seq<Event>)
    requires !s.Unknown?
    ensures IsActive(After(s, es)) <==> !IsTerminal(After(s, es))
    ensures !After(s, es).Unknown?
    decreases es
  {
    if es == [] {
    } else {
      ActiveUntilTerminal(Updated(s, es[0]), es[1..]);
    }
  }

  /** Main result: a goal is canceled after some events exactly when it was Canceling after a
      proper prefix of them and the next event reported the cancellation. */
  lemma {:induction false} CanceledExactlyThroughCanceling(es: seq<Event>)
    ensures After(Accepted, es) == Canceled <==>
            exists k :: 0 <= k < |es| && After(Accepted, es[..k]) == Canceling && es[k] == CanceledEvent
    decreases |es|
  {
    if es == [] {
    } else {
      var n := |es| - 1;
      var before := es[..n];
      assert es == before + [es[n]];
      AfterConcat(Accepted, before, [es[n]]);
      CanceledExactlyThroughCanceling(before);
      if After(Accepted, before) == Canceled {
        TerminalIsAbsorbing(Canceled, [es[n]]);
        var k :| 0 <= k < n && After(Accepted, before[..k]) == Canceling && before[k] == CanceledEvent;
        assert before[..k] == es[..k];
      } else {
        forall k | 0 <= k < n && After(Accepted, es[..k]) == Canceling ensures es[k] != CanceledEvent {
          assert before[..k] == es[..k] && before[k] == es[k];
        }
        assert es[..n] == before;
      }
    }
  }

  /** Main result: a goal has succeeded after some events exactly when it was executing or canceling
      after a proper prefix of them and the next event reported success; aborting likewise. */
  lemma {:induction false} EndedExactlyBy(es: seq<Event>)
    ensures After(Accepted, es) == Succeeded <==>
            exists k :: 0 <= k < |es| && After(Accepted, es[..k]) in {Executing, Canceling} && es[k] == Succeed
    ensures After(Accepted, es) == Aborted <==>
            exists k :: 0 <= k < |es| && After(Accepted, es[..k]) in {Executing, Canceling} && es[k] == Abort
    decreases |es|
  {
    if es == [] {
    } else {
      var n := |es| - 1;
      var before := es[..n];
      assert es == before + [es[n]];
      AfterConcat(Accepted, before, [es[n]]);
      EnteredExactly(After(Accepted, before), es[n]);
      EndedExactlyBy(before);
      forall k | 0 <= k < n ensures before[..k] == es[..k] && before[k] == es[k] {
      }
      assert es[..n] == before;
    }
  }

  /** The number of events in `es` that change the state. */
  function Changes(s: State, es: seq<Event>): nat
    decreases es
  {
    if es == [] then 0 else
      (if Updated(s, es[0]) == s then 0 else 1) + Changes(Updated(s, es[0]), es[1..])
  }

  /** How many changes a goal in state `s` can still go through. */
  function Budget(s: State): nat {
    match s
    case Accepted => 3
    case Executing => 2
    case Canceling => 1
    case _ => 0
  }

  /** A goal changes state at most three times, however many events it is sent; and every change
      uses up budget, so no state is entered twice. */
  lemma {:induction false} AtMostThreeChanges(s: State, es: seq<Event>)
    ensures Changes(s, es) + Budget(After(s, es)) <= Budget(s) <= 3
    decreases es
  {
    if es == [] {
    } else {
      AtMostThreeChanges(Updated(s, es[0]), es[1..]);
    }
  }
}
