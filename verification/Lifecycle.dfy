/** Lifecycle state machines: src/rcl_lifecycle/transition_map.h, rcl_lifecycle.h, data_types.h and
    default_state_machine.h.

    States and transitions are registered at run time; a trigger looks for a transition among those
    valid in the current state.  The default machine registers the table of the header, with the
    identifiers of src/lifecycle_msgs/msg/detail/{state,transition}__struct.h.
 */
module Lifecycle {

  import opened Common

  // ----- records -----

  /** The label constants of default_state_machine.h, taken to be different, and any other text. */
  datatype Label =
    | Configure | Cleanup | Activate | Deactivate | Shutdown
    | TransitionSuccess | TransitionFailure | TransitionError | Text(text: string)

  type StateId = nat

  datatype Transition = Transition(id: nat, name: Label, start: StateId, goal: StateId)

  /** A registered state with the transitions that start there. */
  datatype State = State(id: StateId, valid: seq<Transition>)

  datatype Machine = Machine(states: seq<State>, transitions: seq<Transition>, current: Option<StateId>)

  datatype Ret = Ok | StateRegistered | StateNotRegistered | Error

  // ----- the operations as functions -----

  datatype Op =
    | RegisterState(id: StateId)
    | RegisterTransition(t: Transition)
    | TriggerById(number: uint8)
    | TriggerByLabel(name: Label)

  predicate IsTrigger(op: Op) {
    op.TriggerById? || op.TriggerByLabel?
  }

  function Ids(states: seq<State>): (r: seq<StateId>)
    ensures |r| == |states| && forall i :: 0 <= i < |r| ==> r[i] == states[i].id
  {
    seq(|states|, i requires 0 <= i < |states| => states[i].id)
  }

  function IndexOf(states: seq<State>, id: StateId): (i: nat)
    ensures i <= |states|
    ensures i < |states| ==> states[i].id == id
    ensures forall j :: 0 <= j < i ==> states[j].id != id
  {
    FirstPlace(Ids(states), id)
  }

  predicate IsRegistered(states: seq<State>, id: StateId) {
    IndexOf(states, id) < |states|
  }

  predicate Selects(op: Op, t: Transition) {
    (op.TriggerById? && t.id == op.number) || (op.TriggerByLabel? && t.name == op.name)
  }

  /** rcl_lifecycle_get_transition_by_id and rcl_lifecycle_get_transition_by_label: the first hit. */
  function Lookup(valid: seq<Transition>, op: Op): (r: Option<Transition>)
    ensures r.Some? ==> r.value in valid && Selects(op, r.value)
    ensures r.None? ==> forall t :: t in valid ==> !Selects(op, t)
  {
    if valid == [] then None
    else if Selects(op, valid[0]) then Some(valid[0])
    else Lookup(valid[1..], op)
  }

  function ValidIn(states: seq<State>, id: Option<StateId>): seq<Transition> {
    if id.Some? && IsRegistered(states, id.value) then states[IndexOf(states, id.value)].valid else []
  }

  function RetOf(m: Machine, op: Op): Ret {
    match op
    case RegisterState(id) => if IsRegistered(m.states, id) then StateRegistered else Ok
    case RegisterTransition(t) =>
      if IsRegistered(m.states, t.start) && IsRegistered(m.states, t.goal) then Ok else StateNotRegistered
    case _ => if Lookup(ValidIn(m.states, m.current), op).Some? then Ok else Error
  }

  function WithTransition(states: seq<State>, t: Transition): seq<State>
    requires IsRegistered(states, t.start)
  {
    var i := IndexOf(states, t.start);
    states[i := State(t.start, states[i].valid + [t])]
  }

  function After(m: Machine, op: Op): Machine {
    if !RetOf(m, op).Ok? then m else match op
      case RegisterState(id) => m.(states := m.states + [State(id, [])])
      case RegisterTransition(t) => m.(states := WithTransition(m.states, t), transitions := m.transitions + [t])
      case _ => m.(current := Some(Lookup(ValidIn(m.states, m.current), op).value.goal))
  }

  // ----- what every operation keeps -----

  /** The transitions that start in a state, in the order they were registered. */
  function StartingIn(ts: seq<Transition>, id: StateId): seq<Transition> {
    if ts == [] then [] else
      var last := ts[|ts| - 1];
      StartingIn(ts[..|ts| - 1], id) + if last.start == id then [last] else []
  }

  /** State ids are unique; every state lists exactly the transitions that start there; transitions
      join registered states; the current state is a registered one. */
  ghost predicate Consistent(m: Machine) {
    && (forall i, j :: 0 <= i < j < |m.states| ==> m.states[i].id != m.states[j].id)
    && (forall i :: 0 <= i < |m.states| ==> m.states[i].valid == StartingIn(m.transitions, m.states[i].id))
    && (forall t :: t in m.transitions ==> IsRegistered(m.states, t.start) && IsRegistered(m.states, t.goal))
    && (m.current.Some? ==> IsRegistered(m.states, m.current.value))
  }

  lemma StartingSnoc(ts: seq<Transition>, t: Transition, id: StateId)
    ensures StartingIn(ts + [t], id) == if t.start == id then StartingIn(ts, id) + [t] else StartingIn(ts, id)
  {
    assert (ts + [t])[..|ts|] == ts;
  }

  lemma {:induction false} StartingAre(ts: seq<Transition>, id: StateId, t: Transition)
    ensures t in StartingIn(ts, id) <==> t in ts && t.start == id
    decreases |ts|
  {
    if ts == [] {
    } else {
      StartingAre(ts[..|ts| - 1], id, t);
      assert ts == ts[..|ts| - 1] + [ts[|ts| - 1]];
    }
  }

  lemma IndexOfExtended(states: seq<State>, s: State, id: StateId)
    ensures IndexOf(states + [s], id) ==
            if IsRegistered(states, id) then IndexOf(states, id) else if s.id == id then |states| else |states| + 1
  {
    var all := states + [s];
    assert all[|states|] == s && forall j :: 0 <= j < |states| ==> all[j] == states[j];
  }

  /** Registered ids are unaffected by a change of the transitions listed. */
  lemma IndexOfSameIds(a: seq<State>, b: seq<State>, id: StateId)
    requires |a| == |b| && forall i :: 0 <= i < |a| ==> a[i].id == b[i].id
    ensures IndexOf(a, id) == IndexOf(b, id)
  {
    assert Ids(a) == Ids(b);
  }

  lemma RegisterStateKeeps(m: Machine, id: StateId)
    requires Consistent(m) && !IsRegistered(m.states, id)
    ensures Consistent(m.(states := m.states + [State(id, [])]))
  {
    var states := m.states + [State(id, [])];
    forall x: StateId ensures IsRegistered(states, x) <==> IsRegistered(m.states, x) || x == id {
      IndexOfExtended(m.states, State(id, []), x);
    }
    if StartingIn(m.transitions, id) != [] {
      var t := StartingIn(m.transitions, id)[0];
      StartingAre(m.transitions, id, t);
      assert false;
    }
  }

  lemma RegisterTransitionKeeps(m: Machine, t: Transition)
    requires Consistent(m) && IsRegistered(m.states, t.start) && IsRegistered(m.states, t.goal)
    ensures Consistent(m.(states := WithTransition(m.states, t), transitions := m.transitions + [t]))
  {
    var states, ts := WithTransition(m.states, t), m.transitions + [t];
    forall i | 0 <= i < |states|
      ensures states[i].id == m.states[i].id && states[i].valid == StartingIn(ts, states[i].id)
    {
      WithTransitionAt(m, t, i);
    }
    forall x: StateId ensures IsRegistered(states, x) <==> IsRegistered(m.states, x) {
      IndexOfSameIds(states, m.states, x);
    }
  }

  lemma WithTransitionAt(m: Machine, t: Transition, i: nat)
    requires Consistent(m) && IsRegistered(m.states, t.start) && i < |m.states|
    ensures WithTransition(m.states, t)[i] == State(m.states[i].id, StartingIn(m.transitions + [t], m.states[i].id))
  {
    StartingSnoc(m.transitions, t, m.states[i].id);
  }

  lemma ValidAreStarting(m: Machine, t: Transition)
    requires Consistent(m) && t in ValidIn(m.states, m.current)
    ensures m.current == Some(t.start) && t in m.transitions
  {
    StartingAre(m.transitions, m.current.value, t);
  }

  /** Main result: a trigger succeeds exactly if a registered transition with that id or name starts
      in the current state, and then follows one that does; else it changes nothing. */
  lemma TriggerIff(m: Machine, op: Op)
    requires Consistent(m) && IsTrigger(op)
    ensures RetOf(m, op) == Ok <==> exists t :: t in m.transitions && Some(t.start) == m.current && Selects(op, t)
    ensures RetOf(m, op) == Ok ==>
              exists t :: t in m.transitions && Some(t.start) == m.current && Selects(op, t)
                          && After(m, op) == m.(current := Some(t.goal))
    ensures RetOf(m, op) != Ok ==> After(m, op) == m
  {
    var valid := ValidIn(m.states, m.current);
    forall t | t in m.transitions && Some(t.start) == m.current ensures t in valid {
      StartingAre(m.transitions, t.start, t);
    }
    if RetOf(m, op) == Ok {
      ValidAreStarting(m, Lookup(valid, op).value);
    }
  }

  /** Main result: registering a state fails exactly if its identifier is in use, and a transition
      exactly if one of the states it joins is not there; what is registered is added at the end. */
  lemma RegisteredIff(m: Machine, id: StateId, t: Transition)
    ensures var ret, m' := RetOf(m, RegisterState(id)), After(m, RegisterState(id));
            if id in Ids(m.states) then ret == StateRegistered && m' == m
            else ret == Ok && m' == m.(states := m.states + [State(id, [])])
    ensures var ret, m' := RetOf(m, RegisterTransition(t)), After(m, RegisterTransition(t));
            if t.start in Ids(m.states) && t.goal in Ids(m.states)
            then ret == Ok && Ids(m'.states) == Ids(m.states) && m'.transitions == m.transitions + [t]
                 && m'.current == m.current
            else ret == StateNotRegistered && m' == m
  {
    RegisteredMeans(m.states, id);
    RegisteredMeans(m.states, t.start);
    RegisteredMeans(m.states, t.goal);
  }

  lemma RegisteredMeans(states: seq<State>, id: StateId)
    ensures IsRegistered(states, id) <==> id in Ids(states)
  {
    var i := IndexOf(states, id);
    assert i < |states| ==> Ids(states)[i] == id;
  }

  /** Main result: every operation keeps the map consistent, and what fails changes nothing. */
  lemma StepKeepsConsistency(m: Machine, op: Op)
    requires Consistent(m)
    ensures Consistent(After(m, op))
    ensures RetOf(m, op) != Ok ==> After(m, op) == m
  {
    if RetOf(m, op) == Ok {
      match op
      case RegisterState(id) => RegisterStateKeeps(m, id);
      case RegisterTransition(t) => RegisterTransitionKeeps(m, t);
      case _ => TriggerIff(m, op);
    }
  }

  function Run(m: Machine, ops: seq<Op>): Machine
    decreases |ops|
  {
    if ops == [] then m else Run(After(m, ops[0]), ops[1..])
  }

  /** Over every run of registrations and triggers the current state is a registered one. */
  lemma {:induction false} RunsKeepConsistency(m: Machine, ops: seq<Op>)
    requires Consistent(m)
    ensures Consistent(Run(m, ops))
    decreases |ops|
  {
    if ops == [] {
    } else {
      StepKeepsConsistency(m, ops[0]);
      RunsKeepConsistency(After(m, ops[0]), ops[1..]);
    }
  }

  // ----- the operations as the source does them -----

  class StateMachine {
    var states: seq<State>
    var transitions: seq<Transition>
    var current: Option<StateId>

    function Contents(): Machine
      reads this
    {
      Machine(states, transitions, current)
    }

    /** rcl_lifecycle_get_zero_initialized_state_machine */
    constructor ()
      ensures Contents() == Machine([], [], None)
    {
      states, transitions, current := [], [], None;
    }

    /** rcl_lifecycle_get_state */
    method GetState(id: StateId) returns (i: nat)
      ensures i == IndexOf(states, id)
    {
      i := 0;
      while i < |states| && states[i].id != id
        invariant i <= |states| && forall j :: 0 <= j < i ==> states[j].id != id
      {
        i := i + 1;
      }
    }

    /** rcl_lifecycle_register_state */
    method Register(id: StateId) returns (ret: Ret)
      modifies this`states
      ensures ret == old(RetOf(Contents(), RegisterState(id)))
      ensures Contents() == old(After(Contents(), RegisterState(id)))
    {
      var i := GetState(id);
      if i < |states| {
        return StateRegistered;
      }
      states := states + [State(id, [])];
      return Ok;
    }

    /** rcl_lifecycle_register_transition */
    method Connect(t: Transition) returns (ret: Ret)
      modifies this`states, this`transitions
      ensures ret == old(RetOf(Contents(), RegisterTransition(t)))
      ensures Contents() == old(After(Contents(), RegisterTransition(t)))
    {
      var start := GetState(t.start);
      var goal := GetState(t.goal);
      if start == |states| || goal == |states| {
        return StateNotRegistered;
      }
      transitions := transitions + [t];
      states := states[start := State(t.start, states[start].valid + [t])];
      return Ok;
    }

    method Find(valid: seq<Transition>, op: Op) returns (r: Option<Transition>)
      ensures r == Lookup(valid, op)
    {
      var i := 0;
      while i < |valid|
        invariant i <= |valid| && Lookup(valid, op) == Lookup(valid[i..], op)
      {
        if Selects(op, valid[i]) {
          return Some(valid[i]);
        }
        assert valid[i..][1..] == valid[i + 1..];
        i := i + 1;
      }
      return None;
    }

    /** rcl_lifecycle_trigger_transition_by_id and rcl_lifecycle_trigger_transition_by_label */
    method Trigger(op: Op) returns (ret: Ret)
      requires IsTrigger(op)
      modifies this`current
      ensures ret == old(RetOf(Contents(), op)) && Contents() == old(After(Contents(), op))
    {
      if current.None? {
        return Error;
      }
      var i := GetState(current.value);
      if i == |states| {
        return Error;
      }
      var found := Find(states[i].valid, op);
      if found.None? {
        return Error;
      }
      current := Some(found.value.goal);
      return Ok;
    }

    /** Registers states and transitions one after the other, on a zero-initialized machine. */
    method InitFrom(ids: seq<StateId>, ts: seq<Transition>, first: StateId)
      requires Contents() == Machine([], [], None)
      requires Distinct(ids) && Joins(ids, ts)
      modifies this
      ensures Contents() == In(ids, ts, first)
    {
      for i := 0 to |ids|
        invariant Contents() == Machine(Filled(ids[..i], []), [], None)
      {
        FilledNew(ids, i);
        var ret := Register(ids[i]);
      }
      WholeSlice(ids);
      for i := 0 to |ts|
        invariant Contents() == Machine(Filled(ids, ts[..i]), ts[..i], None)
      {
        FilledStep(ids, ts, i);
        var ret := Connect(ts[i]);
      }
      WholeSlice(ts);
      current := Some(first);
    }

    /** rcl_lifecycle_init_default_state_machine */
    method InitDefault()
      requires Contents() == Machine([], [], None)
      modifies this
      ensures Contents() == In(DefaultStates(), DefaultTransitions(), UNCONFIGURED)
    {
      TableJoins();
      InitFrom(DefaultStates(), DefaultTransitions(), UNCONFIGURED);
    }
  }

  // ----- machines built from a table -----

  predicate Distinct(ids: seq<StateId>) {
    forall i, j :: 0 <= i < j < |ids| ==> ids[i] != ids[j]
  }

  /** The transitions join the given states. */
  predicate Joins(ids: seq<StateId>, ts: seq<Transition>) {
    forall i :: 0 <= i < |ts| ==> ts[i].start in ids && ts[i].goal in ids
  }

  /** The states of a map with these ids and transitions. */
  function Filled(ids: seq<StateId>, ts: seq<Transition>): (r: seq<State>)
    ensures |r| == |ids| && forall i :: 0 <= i < |r| ==> r[i] == State(ids[i], StartingIn(ts, ids[i]))
  {
    seq(|ids|, i requires 0 <= i < |ids| => State(ids[i], StartingIn(ts, ids[i])))
  }

  /** The machine with these states and transitions, in the state `id`. */
  function In(ids: seq<StateId>, ts: seq<Transition>, id: StateId): Machine {
    Machine(Filled(ids, ts), ts, Some(id))
  }

  lemma FilledRegisters(ids: seq<StateId>, ts: seq<Transition>, id: StateId)
    ensures IsRegistered(Filled(ids, ts), id) <==> id in ids
  {
    var states := Filled(ids, ts);
    if k :| 0 <= k < |ids| && ids[k] == id {
      assert states[k].id == id;
    }
    assert IndexOf(states, id) < |states| ==> ids[IndexOf(states, id)] == id;
  }

  lemma FilledNew(ids: seq<StateId>, i: nat)
    requires i < |ids| && Distinct(ids)
    ensures !IsRegistered(Filled(ids[..i], []), ids[i])
    ensures Filled(ids[..i], []) + [State(ids[i], [])] == Filled(ids[..i + 1], [])
  {
    FilledRegisters(ids[..i], [], ids[i]);
  }

  lemma FilledConnects(ids: seq<StateId>, ts: seq<Transition>, t: Transition)
    requires Distinct(ids) && IsRegistered(Filled(ids, ts), t.start)
    ensures WithTransition(Filled(ids, ts), t) == Filled(ids, ts + [t])
  {
    forall k | 0 <= k < |ids| ensures WithTransition(Filled(ids, ts), t)[k] == Filled(ids, ts + [t])[k] {
      FilledConnectsAt(ids, ts, t, k);
    }
  }

  lemma FilledConnectsAt(ids: seq<StateId>, ts: seq<Transition>, t: Transition, k: nat)
    requires Distinct(ids) && IsRegistered(Filled(ids, ts), t.start) && k < |ids|
    ensures WithTransition(Filled(ids, ts), t)[k] == State(ids[k], StartingIn(ts + [t], ids[k]))
  {
    var j := IndexOf(Filled(ids, ts), t.start);
    StartingSnoc(ts, t, ids[k]);
    DistinctAt(ids, j, k);
  }

  lemma DistinctAt(ids: seq<StateId>, j: nat, k: nat)
    requires Distinct(ids) && j < |ids| && k < |ids|
    ensures ids[j] == ids[k] <==> j == k
  {
  }

  lemma FilledStep(ids: seq<StateId>, ts: seq<Transition>, i: nat)
    requires i < |ts| && Joins(ids, ts) && Distinct(ids)
    ensures var m := Machine(Filled(ids, ts[..i]), ts[..i], None);
            && RetOf(m, RegisterTransition(ts[i])) == Ok
            && After(m, RegisterTransition(ts[i])) == Machine(Filled(ids, ts[..i + 1]), ts[..i + 1], None)
  {
    FilledRegisters(ids, ts[..i], ts[i].start);
    FilledRegisters(ids, ts[..i], ts[i].goal);
    FilledConnects(ids, ts[..i], ts[i]);
    assert ts[..i] + [ts[i]] == ts[..i + 1];
  }

  lemma BuiltIsConsistent(ids: seq<StateId>, ts: seq<Transition>, id: StateId)
    requires Distinct(ids) && Joins(ids, ts) && id in ids
    ensures Consistent(In(ids, ts, id))
  {
    FilledRegisters(ids, ts, id);
    forall t | t in ts ensures IsRegistered(Filled(ids, ts), t.start) && IsRegistered(Filled(ids, ts), t.goal) {
      FilledRegisters(ids, ts, t.start);
      FilledRegisters(ids, ts, t.goal);
    }
  }

  // ----- runs of triggers -----

  predicate AreTriggers(ops: seq<Op>) {
    forall i :: 0 <= i < |ops| ==> IsTrigger(ops[i])
  }

  ghost predicate Joined(ts: seq<Transition>, a: StateId, b: StateId) {
    exists t :: t in ts && t.start == a && t.goal == b
  }

  /** The states that a run of triggers enters, one for each trigger that succeeds. */
  function Entered(m: Machine, ops: seq<Op>): seq<StateId>
    decreases |ops|
  {
    if ops == [] then []
    else
      var next := After(m, ops[0]);
      (if RetOf(m, ops[0]).Ok? && IsTrigger(ops[0]) && next.current.Some? then [next.current.value] else [])
      + Entered(next, ops[1..])
  }

  /** Each state leads to the next along a transition. */
  ghost predicate IsPath(ts: seq<Transition>, path: seq<StateId>) {
    forall i :: 0 <= i < |path| - 1 ==> Joined(ts, path[i], path[i + 1])
  }

  lemma TriggerFollows(ids: seq<StateId>, ts: seq<Transition>, id: StateId, op: Op)
    requires Distinct(ids) && Joins(ids, ts) && id in ids && IsTrigger(op)
    ensures var m := In(ids, ts, id);
            if RetOf(m, op) != Ok then After(m, op) == m
            else exists next :: next in ids && Joined(ts, id, next) && After(m, op) == In(ids, ts, next)
  {
    BuiltIsConsistent(ids, ts, id);
    TriggerIff(In(ids, ts, id), op);
    if RetOf(In(ids, ts, id), op) == Ok {
      var t :| t in ts && t.start == id && Selects(op, t) && After(In(ids, ts, id), op) == In(ids, ts, t.goal);
      assert Joined(ts, id, t.goal);
    }
  }

  lemma PathCons(ts: seq<Transition>, a: StateId, b: StateId, rest: seq<StateId>)
    requires Joined(ts, a, b) && IsPath(ts, [b] + rest)
    ensures IsPath(ts, [a] + ([b] + rest))
    ensures var p := [a] + ([b] + rest); p[|p| - 1] == ([b] + rest)[|rest|]
  {
    var p, q := [a] + ([b] + rest), [b] + rest;
    forall i | 0 <= i < |p| - 1 ensures Joined(ts, p[i], p[i + 1]) {
      if i > 0 {
        assert Joined(ts, q[i - 1], q[i - 1 + 1]);
      }
    }
  }

  /** Main result: in every machine built from a table, a run of triggers is a path along registered
      transitions, and ends in the last state of the path. */
  lemma {:induction false} RunsArePaths(ids: seq<StateId>, ts: seq<Transition>, id: StateId, ops: seq<Op>)
    requires Distinct(ids) && Joins(ids, ts) && id in ids && AreTriggers(ops)
    ensures var path := [id] + Entered(In(ids, ts, id), ops);
            IsPath(ts, path) && Run(In(ids, ts, id), ops) == In(ids, ts, path[|path| - 1])
    decreases |ops|
  {
    if ops == [] {
    } else {
      var m := In(ids, ts, id);
      TriggerFollows(ids, ts, id, ops[0]);
      if RetOf(m, ops[0]) == Ok {
        var next :| next in ids && Joined(ts, id, next) && After(m, ops[0]) == In(ids, ts, next);
        RunsArePaths(ids, ts, next, ops[1..]);
        PathCons(ts, id, next, Entered(In(ids, ts, next), ops[1..]));
      } else {
        RunsArePaths(ids, ts, id, ops[1..]);
        EmptyFirst(Entered(m, ops[1..]));
      }
    }
  }

  /** Neither an identifier nor a name is used twice for the same state. */
  ghost predicate Unambiguous(ts: seq<Transition>) {
    forall t, u :: t in ts && u in ts && t.start == u.start && (t.id == u.id || t.name == u.name) ==> t == u
  }

  /** Main result: without ambiguity each transition can be triggered by its identifier and by its
      name, and both come to the same. */
  lemma TransitionIsTriggered(ids: seq<StateId>, ts: seq<Transition>, t: Transition, op: Op)
    requires Distinct(ids) && Joins(ids, ts) && Unambiguous(ts) && t in ts && Selects(op, t) && IsTrigger(op)
    ensures After(In(ids, ts, t.start), op) == In(ids, ts, t.goal)
  {
    BuiltIsConsistent(ids, ts, t.start);
    var m := In(ids, ts, t.start);
    TriggerIff(m, op);
    var u :| u in ts && u.start == t.start && Selects(op, u) && After(m, op) == m.(current := Some(u.goal));
    assert u == t;
  }

  // ----- the default machine -----

  const UNKNOWN: StateId := 0
  const UNCONFIGURED: StateId := 1
  const INACTIVE: StateId := 2
  const ACTIVE: StateId := 3
  const FINALIZED: StateId := 4
  const CONFIGURING: StateId := 10
  const CLEANINGUP: StateId := 11
  const SHUTTINGDOWN: StateId := 12
  const ACTIVATING: StateId := 13
  const DEACTIVATING: StateId := 14
  const ERRORPROCESSING: StateId := 15

  function DefaultStates(): seq<StateId> {
    [UNKNOWN, UNCONFIGURED, INACTIVE, ACTIVE, FINALIZED,
     CONFIGURING, CLEANINGUP, SHUTTINGDOWN, ACTIVATING, DEACTIVATING, ERRORPROCESSING]
  }

  function DefaultTransitions(): seq<Transition> {
    [Transition(1, Configure, UNCONFIGURED, CONFIGURING),
     Transition(5, Shutdown, UNCONFIGURED, SHUTTINGDOWN),
     Transition(10, TransitionSuccess, CONFIGURING, INACTIVE),
     Transition(11, TransitionFailure, CONFIGURING, UNCONFIGURED),
     Transition(12, TransitionError, CONFIGURING, ERRORPROCESSING),
     Transition(3, Activate, INACTIVE, ACTIVATING),
     Transition(2, Cleanup, INACTIVE, CLEANINGUP),
     Transition(6, Shutdown, INACTIVE, SHUTTINGDOWN),
     Transition(20, TransitionSuccess, CLEANINGUP, UNCONFIGURED),
     Transition(21, TransitionFailure, CLEANINGUP, INACTIVE),
     Transition(22, TransitionError, CLEANINGUP, ERRORPROCESSING),
     Transition(30, TransitionSuccess, ACTIVATING, ACTIVE),
     Transition(31, TransitionFailure, ACTIVATING, INACTIVE),
     Transition(32, TransitionError, ACTIVATING, ERRORPROCESSING),
     Transition(4, Deactivate, ACTIVE, DEACTIVATING),
     Transition(7, Shutdown, ACTIVE, SHUTTINGDOWN),
     Transition(40, TransitionSuccess, DEACTIVATING, INACTIVE),
     Transition(41, TransitionFailure, DEACTIVATING, ACTIVE),
     Transition(42, TransitionError, DEACTIVATING, ERRORPROCESSING),
     Transition(50, TransitionSuccess, SHUTTINGDOWN, FINALIZED),
     Transition(51, TransitionFailure, SHUTTINGDOWN, FINALIZED),
     Transition(52, TransitionError, SHUTTINGDOWN, ERRORPROCESSING),
     Transition(60, TransitionSuccess, ERRORPROCESSING, UNCONFIGURED),
     Transition(61, TransitionFailure, ERRORPROCESSING, FINALIZED),
     Transition(62, TransitionError, ERRORPROCESSING, FINALIZED)]
  }

  lemma TableJoins()
    ensures Distinct(DefaultStates()) && Joins(DefaultStates(), DefaultTransitions())
  {
    var ts := DefaultTransitions();
    forall i | 0 <= i < |ts| ensures ts[i].start in DefaultStates() && ts[i].goal in DefaultStates() {
    }
  }

  // ----- what the table says, entry by entry -----

  predicate IsPrimary(id: StateId) {
    id in {UNKNOWN, UNCONFIGURED, INACTIVE, ACTIVE, FINALIZED}
  }

  /** The identifier of the transition with this name that starts in this state. */
  function NumberOf(start: StateId, name: Label): nat {
    if start == UNCONFIGURED then (if name == Configure then 1 else 5)
    else if start == INACTIVE then (if name == Activate then 3 else if name == Cleanup then 2 else 6)
    else if start == ACTIVE then (if name == Deactivate then 4 else 7)
    else
      var step := if name == TransitionSuccess then 0 else if name == TransitionFailure then 1 else 2;
      var base := if start == CONFIGURING then 10 else if start == CLEANINGUP then 20
                  else if start == ACTIVATING then 30 else if start == DEACTIVATING then 40
                  else if start == SHUTTINGDOWN then 50 else 60;
      base + step
  }

  /** The place in the table of the transition with this identifier. */
  function PlaceOf(id: nat): (i: nat)
    ensures i < |DefaultTransitions()|
  {
    match id
    case 1 => 0 case 5 => 1 case 10 => 2 case 11 => 3 case 12 => 4 case 3 => 5 case 2 => 6 case 6 => 7
    case 20 => 8 case 21 => 9 case 22 => 10 case 30 => 11 case 31 => 12 case 32 => 13 case 4 => 14 case 7 => 15
    case 40 => 16 case 41 => 17 case 42 => 18 case 50 => 19 case 51 => 20 case 52 => 21 case 60 => 22 case 61 => 23
    case _ => 24
  }

  lemma TablePlace(i: nat)
    requires i < |DefaultTransitions()|
    ensures PlaceOf(DefaultTransitions()[i].id) == i
  {
  }

  lemma TableNumber(t: Transition)
    requires t in DefaultTransitions()
    ensures t.id == NumberOf(t.start, t.name) && t.id < 256
  {
  }

  lemma TableShape(t: Transition)
    requires t in DefaultTransitions()
    ensures t.start != UNKNOWN && t.goal != UNKNOWN && t.start != FINALIZED
    ensures IsPrimary(t.start) ==> !IsPrimary(t.goal)
    ensures !IsPrimary(t.start) && !IsPrimary(t.goal) ==> t.goal == ERRORPROCESSING
    ensures t.start == ERRORPROCESSING ==> IsPrimary(t.goal)
  {
  }

  /** No ambiguity if an identifier gives the place, and a start and a name give the identifier. */
  lemma KeysDetermine(ts: seq<Transition>, place: nat -> nat, number: (StateId, Label) -> nat)
    requires forall i :: 0 <= i < |ts| ==> place(ts[i].id) == i
    requires forall t :: t in ts ==> t.id == number(t.start, t.name)
    ensures Unambiguous(ts)
    ensures forall t, u :: t in ts && u in ts && t.id == u.id ==> t == u
  {
    forall t, u | t in ts && u in ts && (t.id == u.id || (t.start == u.start && t.name == u.name)) ensures t == u {
      var i :| 0 <= i < |ts| && ts[i] == t;
      var j :| 0 <= j < |ts| && ts[j] == u;
    }
  }

  /** Main result: in the default machine no identifier is used twice at all, and no name twice for a
      state; so every transition can be triggered either way. */
  lemma TableIsUnambiguous()
    ensures Unambiguous(DefaultTransitions())
    ensures forall t, u :: t in DefaultTransitions() && u in DefaultTransitions() && t.id == u.id ==> t == u
  {
    var ts := DefaultTransitions();
    forall i | 0 <= i < |ts| ensures PlaceOf(ts[i].id) == i {
      TablePlace(i);
    }
    forall t | t in ts ensures t.id == NumberOf(t.start, t.name) {
      TableNumber(t);
    }
    KeysDetermine(ts, PlaceOf, NumberOf);
  }

  // ----- runs of the default machine -----

  function DefaultIn(id: StateId): Machine {
    In(DefaultStates(), DefaultTransitions(), id)
  }

  /** Every transition of the table fires in its state, by identifier and by name alike. */
  lemma DefaultTriggers(t: Transition)
    requires t in DefaultTransitions()
    ensures t.id < 256
    ensures After(DefaultIn(t.start), TriggerById(t.id)) == DefaultIn(t.goal)
    ensures After(DefaultIn(t.start), TriggerByLabel(t.name)) == DefaultIn(t.goal)
  {
    TableJoins();
    TableIsUnambiguous();
    TableNumber(t);
    TransitionIsTriggered(DefaultStates(), DefaultTransitions(), t, TriggerById(t.id));
    TransitionIsTriggered(DefaultStates(), DefaultTransitions(), t, TriggerByLabel(t.name));
  }

  predicate IsOutcome(name: Label) {
    name == TransitionSuccess || name == TransitionFailure || name == TransitionError
  }

  lemma OutcomeEntry(id: StateId, outcome: Label)
    requires id in DefaultStates() && !IsPrimary(id) && IsOutcome(outcome)
    ensures var t := DefaultTransitions()[PlaceOf(NumberOf(id, outcome))];
            && t.start == id && t.name == outcome
            && (outcome == TransitionError ==> t.goal == if id == ERRORPROCESSING then FINALIZED else ERRORPROCESSING)
            && (outcome != TransitionError ==> IsPrimary(t.goal))
  {
  }

  /** Main result: whatever a transition state's callback returns has a transition; success and
      failure lead to a primary state, an error leads to error processing, and an error there to
      finalized. */
  lemma OutcomesResolve(id: StateId, outcome: Label)
    requires id in DefaultStates() && !IsPrimary(id) && IsOutcome(outcome)
    ensures var next := After(DefaultIn(id), TriggerByLabel(outcome));
            exists goal :: next == DefaultIn(goal) &&
              if outcome != TransitionError then IsPrimary(goal)
              else goal == if id == ERRORPROCESSING then FINALIZED else ERRORPROCESSING
  {
    var t := DefaultTransitions()[PlaceOf(NumberOf(id, outcome))];
    OutcomeEntry(id, outcome);
    ElementIsIn(DefaultTransitions(), PlaceOf(NumberOf(id, outcome)));
    DefaultTriggers(t);
  }

  lemma StepIsOrderly(a: StateId, b: StateId)
    requires Joined(DefaultTransitions(), a, b)
    ensures a != UNKNOWN && b != UNKNOWN && a != FINALIZED
    ensures IsPrimary(a) ==> !IsPrimary(b)
    ensures !IsPrimary(a) && !IsPrimary(b) ==> b == ERRORPROCESSING
    ensures a == ERRORPROCESSING ==> IsPrimary(b)
  {
    var t :| t in DefaultTransitions() && t.start == a && t.goal == b;
    TableShape(t);
  }

  /** A step the default machine may take from one state to another. */
  predicate MayFollow(a: StateId, b: StateId) {
    a != UNKNOWN && a != FINALIZED && b != UNKNOWN && !(IsPrimary(a) && IsPrimary(b))
  }

  ghost predicate IsOrderly(path: seq<StateId>) {
    && (forall i :: 0 <= i < |path| - 1 ==> MayFollow(path[i], path[i + 1]))
    && (forall i :: 0 <= i < |path| - 2 ==> IsPrimary(path[i]) || IsPrimary(path[i + 1]) || IsPrimary(path[i + 2]))
  }

  lemma PathsAreOrderly(path: seq<StateId>)
    requires IsPath(DefaultTransitions(), path)
    ensures IsOrderly(path)
  {
    forall i | 0 <= i < |path| - 1 ensures MayFollow(path[i], path[i + 1]) {
      StepIsOrderly(path[i], path[i + 1]);
    }
    forall i | 0 <= i < |path| - 2
      ensures IsPrimary(path[i]) || IsPrimary(path[i + 1]) || IsPrimary(path[i + 2])
    {
      assert Joined(DefaultTransitions(), path[i + 1], path[i + 1 + 1]);
      StepIsOrderly(path[i], path[i + 1]);
      StepIsOrderly(path[i + 1], path[i + 2]);
    }
  }

  /** Main result: in every run of the default machine, from any of its states, no step joins two
      primary states, at most two transition states follow one another, unknown is neither entered
      nor left, and finalized is never left. */
  lemma RunsAreOrderly(id: StateId, ops: seq<Op>)
    requires id in DefaultStates() && AreTriggers(ops)
    ensures var path := [id] + Entered(DefaultIn(id), ops);
            IsOrderly(path) && Run(DefaultIn(id), ops) == DefaultIn(path[|path| - 1])
  {
    TableJoins();
    RunsArePaths(DefaultStates(), DefaultTransitions(), id, ops);
    PathsAreOrderly([id] + Entered(DefaultIn(id), ops));
  }

  /** Main result: once finalized, whatever is triggered, nothing changes. */
  lemma FinalizedIsFinal(ops: seq<Op>)
    requires AreTriggers(ops)
    ensures Run(DefaultIn(FINALIZED), ops) == DefaultIn(FINALIZED)
  {
    TableJoins();
    ElementIsIn(DefaultStates(), 4);
    forall t | t in DefaultTransitions() ensures t.start != FINALIZED {
      TableShape(t);
    }
    DeadEnd(DefaultStates(), DefaultTransitions(), FINALIZED, ops);
  }

  lemma FirstStep(ts: seq<Transition>, path: seq<StateId>)
    requires |path| > 1 && IsPath(ts, path)
    ensures Joined(ts, path[0], path[1])
  {
    assert Joined(ts, path[0], path[0 + 1]);
  }

  /** A state that no transition leaves is final. */
  lemma DeadEnd(ids: seq<StateId>, ts: seq<Transition>, id: StateId, ops: seq<Op>)
    requires Distinct(ids) && Joins(ids, ts) && id in ids && AreTriggers(ops)
    requires forall t :: t in ts ==> t.start != id
    ensures Run(In(ids, ts, id), ops) == In(ids, ts, id)
  {
    RunsArePaths(ids, ts, id, ops);
    var path := [id] + Entered(In(ids, ts, id), ops);
    if |path| > 1 {
      FirstStep(ts, path);
      assert false;
    }
  }

  lemma RunCons(m: Machine, op: Op, ops: seq<Op>)
    ensures Run(m, [op] + ops) == Run(After(m, op), ops)
  {
    assert ([op] + ops)[1..] == ops;
  }

  // ----- the life of a default machine, by the numbers of the messages -----

  /** The transition with this identifier and name joins these two states. */
  predicate IsEntry(from: StateId, number: uint8, name: Label, to: StateId) {
    DefaultTransitions()[PlaceOf(number)] == Transition(number, name, from, to)
  }

  predicate Asks(op: Op, number: uint8, name: Label) {
    op == TriggerById(number) || op == TriggerByLabel(name)
  }

  lemma OneStep(from: StateId, number: uint8, name: Label, to: StateId, op: Op)
    requires IsEntry(from, number, name, to) && Asks(op, number, name)
    ensures After(DefaultIn(from), op) == DefaultIn(to)
  {
    ElementIsIn(DefaultTransitions(), PlaceOf(number));
    DefaultTriggers(DefaultTransitions()[PlaceOf(number)]);
  }

  lemma TwoSteps(from: StateId, a: Op, mid: StateId, b: Op, to: StateId)
    requires After(DefaultIn(from), a) == DefaultIn(mid) && After(DefaultIn(mid), b) == DefaultIn(to)
    ensures Run(DefaultIn(from), [a, b]) == DefaultIn(to)
  {
    RunCons(DefaultIn(mid), b, []);
    RunCons(DefaultIn(from), a, [b]);
  }

  /** The request that leads from one state to another by way of a transition state, with the
      identifier of its callback's success; failure and error have the next two. */
  predicate IsRequest(from: StateId, number: uint8, name: Label, mid: StateId, callback: uint8, to: StateId) {
    || (from == 1 && number == 1 && name == Configure && mid == 10 && callback == 10 && to == 2)
    || (from == 2 && number == 2 && name == Cleanup && mid == 11 && callback == 20 && to == 1)
    || (from == 2 && number == 3 && name == Activate && mid == 13 && callback == 30 && to == 3)
    || (from == 3 && number == 4 && name == Deactivate && mid == 14 && callback == 40 && to == 2)
  }

  lemma RequestEntry(from: StateId, number: uint8, name: Label, mid: StateId, callback: uint8, to: StateId)
    requires IsRequest(from, number, name, mid, callback, to)
    ensures IsEntry(from, number, name, mid)
  {
  }

  lemma CallbackEntries(from: StateId, number: uint8, name: Label, mid: StateId, callback: uint8, to: StateId)
    requires IsRequest(from, number, name, mid, callback, to)
    ensures IsEntry(mid, callback, TransitionSuccess, to)
    ensures IsEntry(mid, callback + 1, TransitionFailure, from)
    ensures IsEntry(mid, callback + 2, TransitionError, 15)
  {
  }

  /** Where a request from one state to another ends, by what its callback came to. */
  predicate EndsIn(from: StateId, to: StateId, callback: uint8, outcome: Op, end: StateId) {
    || (Asks(outcome, callback, TransitionSuccess) && end == to)
    || (callback < 254 && Asks(outcome, callback + 1, TransitionFailure) && end == from)
    || (callback < 254 && Asks(outcome, callback + 2, TransitionError) && end == 15)
  }

  lemma OutcomeStep(
    from: StateId, number: uint8, name: Label, mid: StateId, callback: uint8, to: StateId, outcome: Op, end: StateId)
    requires IsRequest(from, number, name, mid, callback, to) && EndsIn(from, to, callback, outcome, end)
    ensures After(DefaultIn(mid), outcome) == DefaultIn(end)
  {
    CallbackEntries(from, number, name, mid, callback, to);
    if Asks(outcome, callback, TransitionSuccess) {
      OneStep(mid, callback, TransitionSuccess, end, outcome);
    } else if Asks(outcome, callback + 1, TransitionFailure) {
      OneStep(mid, callback + 1, TransitionFailure, end, outcome);
    } else {
      OneStep(mid, callback + 2, TransitionError, end, outcome);
    }
  }

  /** Main result: configure (1), cleanup (2), activate (3) and deactivate (4) lead on if their
      callback succeeds, back if it fails, and to error processing (15) if it raises an error;
      by identifiers and by names alike. */
  lemma RequestCompletesOrIsUndone(
    from: StateId, number: uint8, name: Label, mid: StateId, callback: uint8, to: StateId,
    request: Op, outcome: Op, end: StateId)
    requires IsRequest(from, number, name, mid, callback, to) && Asks(request, number, name)
    requires EndsIn(from, to, callback, outcome, end)
    ensures Run(DefaultIn(from), [request, outcome]) == DefaultIn(end)
  {
    RequestEntry(from, number, name, mid, callback, to);
    OneStep(from, number, name, mid, request);
    OutcomeStep(from, number, name, mid, callback, to, outcome, end);
    TwoSteps(from, request, mid, outcome, end);
  }

  lemma ShutdownEntries(from: StateId, number: uint8)
    requires 1 <= from <= 3 && number == from + 4
    ensures IsEntry(from, number, Shutdown, 12)
    ensures IsEntry(12, 50, TransitionSuccess, 4) && IsEntry(12, 51, TransitionFailure, 4)
  {
  }

  /** Main result: a shutdown (5, 6 and 7 in states 1, 2 and 3) ends in finalized (4) whether its
      callback succeeds or fails. */
  lemma ShutdownFinalizes(from: StateId, number: uint8, request: Op, outcome: Op)
    requires 1 <= from <= 3 && number == from + 4 && Asks(request, number, Shutdown)
    requires Asks(outcome, 50, TransitionSuccess) || Asks(outcome, 51, TransitionFailure)
    ensures Run(DefaultIn(from), [request, outcome]) == DefaultIn(4)
  {
    ShutdownEntries(from, number);
    OneStep(from, number, Shutdown, 12, request);
    if Asks(outcome, 50, TransitionSuccess) {
      OneStep(12, 50, TransitionSuccess, 4, outcome);
    } else {
      OneStep(12, 51, TransitionFailure, 4, outcome);
    }
    TwoSteps(from, request, 12, outcome, 4);
  }

  /** The identifiers of an error in a transition state, and of what its processing comes to. */
  predicate IsError(state: StateId, error: uint8, processed: uint8, name: Label, end: StateId) {
    && ((state == 10 && error == 12) || (state == 11 && error == 22) || (state == 13 && error == 32)
        || (state == 14 && error == 42) || (state == 12 && error == 52))
    && ((processed == 60 && name == TransitionSuccess && end == 1)
        || (processed == 61 && name == TransitionFailure && end == 4)
        || (processed == 62 && name == TransitionError && end == 4))
  }

  lemma ErrorEntries(state: StateId, error: uint8, processed: uint8, name: Label, end: StateId)
    requires IsError(state, error, processed, name, end)
    ensures IsEntry(state, error, TransitionError, 15) && IsEntry(15, processed, name, end)
  {
  }

  /** Main result: an error in any other transition state is processed, which leads back to
      unconfigured on success and to finalized else. */
  lemma ErrorIsProcessed(
    state: StateId, error: uint8, processed: uint8, name: Label, end: StateId, raise: Op, outcome: Op)
    requires IsError(state, error, processed, name, end)
    requires Asks(raise, error, TransitionError) && Asks(outcome, processed, name)
    ensures Run(DefaultIn(state), [raise, outcome]) == DefaultIn(end)
  {
    ErrorEntries(state, error, processed, name, end);
    OneStep(state, error, TransitionError, 15, raise);
    OneStep(15, processed, name, end, outcome);
    TwoSteps(state, raise, 15, outcome, end);
  }

  // ----- finalized can always be reached -----

  /** The place in the table of the transition to take next on the way to finalized. */
  function PlaceOfWayOut(id: StateId): (i: nat)
    ensures i < |DefaultTransitions()|
  {
    if id == UNCONFIGURED then 1 else if id == INACTIVE then 7 else if id == ACTIVE then 15
    else if id == CONFIGURING then 2 else if id == CLEANINGUP then 8 else if id == ACTIVATING then 11
    else if id == DEACTIVATING then 16 else if id == SHUTTINGDOWN then 19 else 23
  }

  function WayOut(id: StateId): Transition {
    DefaultTransitions()[PlaceOfWayOut(id)]
  }

  /** How many steps it takes at most. */
  function Distance(id: StateId): nat {
    if id == FINALIZED then 0
    else if id == SHUTTINGDOWN || id == ERRORPROCESSING then 1
    else if IsPrimary(id) then 2
    else 3
  }

  lemma WayOutIsEntry(id: StateId)
    requires id in DefaultStates() && id != UNKNOWN && id != FINALIZED
    ensures var t := WayOut(id);
            t in DefaultTransitions() && t.start == id && t.goal != UNKNOWN && Distance(t.goal) < Distance(id)
  {
    ElementIsIn(DefaultTransitions(), PlaceOfWayOut(id));
  }

  /** Main result: from every state but unknown, triggers lead to finalized. */
  lemma {:induction false} FinalizedIsReachable(id: StateId)
    requires id in DefaultStates() && id != UNKNOWN
    ensures exists ops :: AreTriggers(ops) && Run(DefaultIn(id), ops) == DefaultIn(FINALIZED)
    decreases Distance(id)
  {
    if id == FINALIZED {
      FinalizedIsFinal([]);
    } else {
      var t := WayOut(id);
      WayOutIsEntry(id);
      WayOutTriggers(id);
      FinalizedIsReachable(t.goal);
      var ops :| AreTriggers(ops) && Run(DefaultIn(t.goal), ops) == DefaultIn(FINALIZED);
      RunCons(DefaultIn(id), TriggerByLabel(t.name), ops);
      assert AreTriggers([TriggerByLabel(t.name)] + ops);
    }
  }

  lemma WayOutTriggers(id: StateId)
    requires id in DefaultStates() && id != UNKNOWN && id != FINALIZED
    ensures After(DefaultIn(id), TriggerByLabel(WayOut(id).name)) == DefaultIn(WayOut(id).goal)
    ensures WayOut(id).goal in DefaultStates()
  {
    WayOutIsEntry(id);
    DefaultTriggers(WayOut(id));
    TableJoins();
  }
}
