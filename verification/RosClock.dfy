/** ROS time and jump callbacks: src/rcl/time.h.

    A clock of type ROS time reports the system time, or an overriding value while the override is
    enabled.  Enabling, disabling and setting the override make the reading jump; callbacks whose
    threshold the jump exceeds are called before and after the change.  The system time is read
    from outside and comes in as a parameter.
 */
module RosClock {

  import opened Common

  // ----- records -----

  datatype ClockType = Uninitialized | RosTime | SystemTime | SteadyTime

  /** The source of time before and after a jump. */
  datatype Change = RosTimeNoChange | RosTimeActivated | RosTimeDeactivated

  datatype Jump = Jump(change: Change, delta: int)

  /** Zero disables a minimum. */
  datatype Threshold = Threshold(onClockChange: bool, minForward: int, minBackward: int)

  /** A callback is known by the function and the user data passed to it. */
  datatype Key = Key(callback: int, userData: int)

  datatype Info = Info(key: Key, threshold: Threshold)

  /** What happens on the outside: a callback is called, or the clock changes its reading. */
  datatype Event = Called(key: Key, jump: Jump, before: bool) | Changed(jump: Jump)

  datatype Ret = Ok | InvalidArgument | Error

  /** The fields of a clock. */
  datatype State = State(clockType: ClockType, callbacks: seq<Info>, active: bool, value: int)

  predicate ValidThreshold(t: Threshold) {
    t.minForward >= 0 && t.minBackward <= 0
  }

  predicate Exceeds(t: Threshold, j: Jump) {
    || (t.onClockChange && j.change != RosTimeNoChange)
    || (t.minForward != 0 && j.delta >= t.minForward)
    || (t.minBackward != 0 && j.delta <= t.minBackward)
  }

  /** rcl_clock_get_now at the given system time. */
  function Reading(s: State, system: int): int {
    if s.clockType == RosTime && s.active then s.value else system
  }

  function Keys(infos: seq<Info>): (r: seq<Key>)
    ensures |r| == |infos| && forall i :: 0 <= i < |r| ==> r[i] == infos[i].key
  {
    seq(|infos|, i requires 0 <= i < |infos| => infos[i].key)
  }

  /** No two callbacks have the same key. */
  predicate KeysAreUnique(infos: seq<Info>) {
    forall i, j :: 0 <= i < j < |infos| ==> infos[i].key != infos[j].key
  }

  // ----- the operations as functions -----

  datatype Op =
    | Enable | Disable | Set(time: int)
    | AddCallback(key: Key, threshold: Threshold) | RemoveCallback(key: Key)

  /** The calls made before or after a jump, in the order the callbacks were added. */
  function Calls(infos: seq<Info>, j: Jump, before: bool): seq<Event> {
    if infos == [] then [] else
      var last := infos[|infos| - 1];
      Calls(infos[..|infos| - 1], j, before) + if Exceeds(last.threshold, j) then [Called(last.key, j, before)] else []
  }

  function Around(infos: seq<Info>, j: Jump): seq<Event> {
    Calls(infos, j, true) + [Changed(j)] + Calls(infos, j, false)
  }

  /** The jump an operation makes, if it makes one. */
  predicate Jumps(s: State, op: Op) {
    s.clockType == RosTime && ((op.Enable? && !s.active) || (op.Disable? && s.active) || (op.Set? && s.active))
  }

  function JumpOf(s: State, op: Op, system: int): Jump
    requires Jumps(s, op)
  {
    match op
    case Enable => Jump(RosTimeActivated, s.value - system)
    case Disable => Jump(RosTimeDeactivated, system - s.value)
    case Set(t) => Jump(RosTimeNoChange, t - s.value)
  }

  function IndexOf(infos: seq<Info>, key: Key): (i: nat)
    ensures i <= |infos|
    ensures i < |infos| ==> infos[i].key == key
    ensures forall j :: 0 <= j < i ==> infos[j].key != key
  {
    FirstPlace(Keys(infos), key)
  }

  function RetOf(s: State, op: Op): Ret {
    match op
    case AddCallback(key, t) =>
      if !ValidThreshold(t) then InvalidArgument
      else if IndexOf(s.callbacks, key) < |s.callbacks| then Error
      else Ok
    case RemoveCallback(key) => if IndexOf(s.callbacks, key) < |s.callbacks| then Ok else Error
    case _ => if s.clockType == RosTime then Ok else InvalidArgument
  }

  function After(s: State, op: Op): State {
    if !RetOf(s, op).Ok? then s else match op
      case Enable => s.(active := true)
      case Disable => s.(active := false)
      case Set(t) => s.(value := t)
      case AddCallback(key, t) => s.(callbacks := s.callbacks + [Info(key, t)])
      case RemoveCallback(key) =>
        var i := IndexOf(s.callbacks, key);
        s.(callbacks := s.callbacks[..i] + s.callbacks[i + 1..])
  }

  function EventsOf(s: State, op: Op, system: int): seq<Event> {
    if Jumps(s, op) then Around(s.callbacks, JumpOf(s, op, system)) else []
  }

  // ----- the operations as the source does them -----

  class Clock {
    const clockType: ClockType
    var callbacks: seq<Info>
    var active: bool
    var value: int

    function Contents(): State
      reads this
    {
      State(clockType, callbacks, active, value)
    }

    /** rcl_ros_clock_init and its companions */
    constructor (t: ClockType)
      ensures Contents() == State(t, [], false, 0)
    {
      clockType, callbacks, active, value := t, [], false, 0;
    }

    /** rcl_clock_get_now */
    method GetNow(system: int) returns (now: int)
      ensures now == Reading(Contents(), system)
    {
      if clockType == RosTime && active {
        return value;
      }
      return system;
    }

    method CallCallbacks(j: Jump, before: bool) returns (events: seq<Event>)
      ensures events == Calls(callbacks, j, before)
    {
      events := [];
      for i := 0 to |callbacks|
        invariant events == Calls(callbacks[..i], j, before)
      {
        CallsSnoc(callbacks, i, j, before);
        if Exceeds(callbacks[i].threshold, j) {
          events := events + [Called(callbacks[i].key, j, before)];
        }
      }
      WholeSlice(callbacks);
    }

    /** rcl_enable_ros_time_override */
    method EnableOverride(system: int) returns (ret: Ret, events: seq<Event>)
      modifies this`active
      ensures ret == old(RetOf(Contents(), Enable)) && Contents() == old(After(Contents(), Enable))
      ensures events == old(EventsOf(Contents(), Enable, system))
    {
      if clockType != RosTime {
        return InvalidArgument, [];
      }
      if active {
        return Ok, [];
      }
      var j := Jump(RosTimeActivated, value - system);
      var first := CallCallbacks(j, true);
      active := true;
      var second := CallCallbacks(j, false);
      return Ok, first + [Changed(j)] + second;
    }

    /** rcl_disable_ros_time_override */
    method DisableOverride(system: int) returns (ret: Ret, events: seq<Event>)
      modifies this`active
      ensures ret == old(RetOf(Contents(), Disable)) && Contents() == old(After(Contents(), Disable))
      ensures events == old(EventsOf(Contents(), Disable, system))
    {
      if clockType != RosTime {
        return InvalidArgument, [];
      }
      if !active {
        return Ok, [];
      }
      var j := Jump(RosTimeDeactivated, system - value);
      var first := CallCallbacks(j, true);
      active := false;
      var second := CallCallbacks(j, false);
      return Ok, first + [Changed(j)] + second;
    }

    /** rcl_set_ros_time_override */
    method SetOverride(time: int, system: int) returns (ret: Ret, events: seq<Event>)
      modifies this`value
      ensures ret == old(RetOf(Contents(), Set(time))) && Contents() == old(After(Contents(), Set(time)))
      ensures events == old(EventsOf(Contents(), Set(time), system))
    {
      if clockType != RosTime {
        return InvalidArgument, [];
      }
      if !active {
        value := time;
        return Ok, [];
      }
      var j := Jump(RosTimeNoChange, time - value);
      var first := CallCallbacks(j, true);
      value := time;
      var second := CallCallbacks(j, false);
      return Ok, first + [Changed(j)] + second;
    }

    method Find(key: Key) returns (i: nat)
      ensures i == IndexOf(callbacks, key)
    {
      i := 0;
      while i < |callbacks| && callbacks[i].key != key
        invariant i <= |callbacks| && forall j :: 0 <= j < i ==> callbacks[j].key != key
      {
        i := i + 1;
      }
    }

    /** rcl_clock_add_jump_callback */
    method Add(key: Key, threshold: Threshold) returns (ret: Ret)
      modifies this`callbacks
      ensures ret == old(RetOf(Contents(), AddCallback(key, threshold)))
      ensures Contents() == old(After(Contents(), AddCallback(key, threshold)))
    {
      if threshold.minForward < 0 || threshold.minBackward > 0 {
        return InvalidArgument;
      }
      var i := Find(key);
      if i < |callbacks| {
        return Error;
      }
      callbacks := callbacks + [Info(key, threshold)];
      return Ok;
    }

    /** rcl_clock_remove_jump_callback */
    method Remove(key: Key) returns (ret: Ret)
      modifies this`callbacks
      ensures ret == old(RetOf(Contents(), RemoveCallback(key)))
      ensures Contents() == old(After(Contents(), RemoveCallback(key)))
    {
      var i := Find(key);
      if i == |callbacks| {
        return Error;
      }
      callbacks := callbacks[..i] + callbacks[i + 1..];
      return Ok;
    }
  }

  lemma CallsSnoc(infos: seq<Info>, i: nat, j: Jump, before: bool)
    requires i < |infos|
    ensures Calls(infos[..i + 1], j, before) ==
            Calls(infos[..i], j, before)
            + if Exceeds(infos[i].threshold, j) then [Called(infos[i].key, j, before)] else []
  {
    assert infos[..i + 1][..i] == infos[..i];
  }

  // ----- keys stay unique -----

  /** Every operation keeps the keys unique. */
  lemma KeysStayUnique(s: State, op: Op)
    requires KeysAreUnique(s.callbacks)
    ensures KeysAreUnique(After(s, op).callbacks)
  {
  }

  lemma KeyIsPresentIff(infos: seq<Info>, key: Key)
    ensures IndexOf(infos, key) < |infos| <==> key in Keys(infos)
  {
    var i := IndexOf(infos, key);
    assert i < |infos| ==> Keys(infos)[i] == key;
  }

  /** Main result: adding fails exactly for a bad threshold or a key in use, and removing undoes it. */
  lemma RemoveUndoesAdd(s: State, key: Key, t: Threshold)
    ensures RetOf(s, AddCallback(key, t)) == Ok <==> ValidThreshold(t) && key !in Keys(s.callbacks)
    ensures RetOf(s, AddCallback(key, t)) == Ok ==> After(After(s, AddCallback(key, t)), RemoveCallback(key)) == s
  {
    KeyIsPresentIff(s.callbacks, key);
    if RetOf(s, AddCallback(key, t)) == Ok {
      var added := After(s, AddCallback(key, t)).callbacks;
      assert added[|s.callbacks|].key == key;
      assert IndexOf(added, key) == |s.callbacks|;
      assert added[..|s.callbacks|] + added[|s.callbacks| + 1..] == s.callbacks;
    }
  }

  /** Removing fails exactly for a key not in use, and the key is gone. */
  lemma RemovedIsGone(s: State, key: Key)
    requires KeysAreUnique(s.callbacks)
    ensures RetOf(s, RemoveCallback(key)) == Ok <==> key in Keys(s.callbacks)
    ensures key !in Keys(After(s, RemoveCallback(key)).callbacks)
  {
    KeyIsPresentIff(s.callbacks, key);
  }

  /** Removing a callback leaves the others as they were. */
  lemma RemovingKeepsOthers(s: State, key: Key, other: Info)
    requires other.key != key
    ensures other in After(s, RemoveCallback(key)).callbacks <==> other in s.callbacks
  {
    var i := IndexOf(s.callbacks, key);
    if i < |s.callbacks| {
      assert s.callbacks == s.callbacks[..i] + [s.callbacks[i]] + s.callbacks[i + 1..];
    }
  }

  // ----- a callback is called once before and once after -----

  function Count(events: seq<Event>, e: Event): nat {
    multiset(events)[e]
  }

  /** The callback with this key is one whose threshold the jump exceeds. */
  ghost predicate Concerned(infos: seq<Info>, key: Key, j: Jump) {
    exists i :: 0 <= i < |infos| && infos[i].key == key && Exceeds(infos[i].threshold, j)
  }

  lemma ConcernedSnoc(infos: seq<Info>, key: Key, j: Jump)
    requires infos != [] && KeysAreUnique(infos)
    ensures var n := |infos| - 1;
            && (Concerned(infos, key, j) <==>
                Concerned(infos[..n], key, j) || (infos[n].key == key && Exceeds(infos[n].threshold, j)))
            && (infos[n].key == key ==> !Concerned(infos[..n], key, j))
  {
    var n := |infos| - 1;
    if i :| 0 <= i < n && infos[i].key == key && Exceeds(infos[i].threshold, j) {
      assert infos[..n][i] == infos[i];
    }
  }

  lemma CallsStep(infos: seq<Info>, j: Jump, before: bool)
    requires infos != []
    ensures var n := |infos| - 1;
            Calls(infos, j, before) ==
            if Exceeds(infos[n].threshold, j) then Calls(infos[..n], j, before) + [Called(infos[n].key, j, before)]
            else Calls(infos[..n], j, before)
  {
  }

  lemma CountSnoc(events: seq<Event>, x: Event, e: Event)
    ensures Count(events + [x], e) == Count(events, e) + if x == e then 1 else 0
  {
  }

  lemma {:induction false} CallsCount(infos: seq<Info>, j: Jump, before: bool, e: Event)
    requires KeysAreUnique(infos)
    ensures Count(Calls(infos, j, before), e) ==
            if e.Called? && e.jump == j && e.before == before && Concerned(infos, e.key, j) then 1 else 0
    decreases |infos|
  {
    if infos == [] {
    } else {
      var n := |infos| - 1;
      CallsStep(infos, j, before);
      CallsCount(infos[..n], j, before, e);
      CountSnoc(Calls(infos[..n], j, before), Called(infos[n].key, j, before), e);
      if e.Called? {
        ConcernedSnoc(infos, e.key, j);
      }
    }
  }

  /** Main result: an operation that makes the reading jump calls each callback whose threshold the
      jump exceeds exactly once before the change and exactly once after, with the same jump, and
      calls no other; the jump is the new reading minus the old one.  Other operations call nothing. */
  lemma CalledOnceBeforeAndAfter(s: State, op: Op, system: int, e: Event)
    requires KeysAreUnique(s.callbacks)
    ensures !Jumps(s, op) ==>
              && EventsOf(s, op, system) == []
              && Reading(After(s, op), system) == Reading(s, system)
    ensures Jumps(s, op) ==>
            var j := JumpOf(s, op, system);
            && j.delta == Reading(After(s, op), system) - Reading(s, system)
            && j.change == (if s.active == After(s, op).active then RosTimeNoChange
                            else if s.active then RosTimeDeactivated else RosTimeActivated)
            && EventsOf(s, op, system) == Calls(s.callbacks, j, true) + [Changed(j)] + Calls(s.callbacks, j, false)
            && Count(Calls(s.callbacks, j, true), e) ==
               (if e.Called? && e.before && e.jump == j && Concerned(s.callbacks, e.key, j) then 1 else 0)
            && Count(Calls(s.callbacks, j, false), e) ==
               (if e.Called? && !e.before && e.jump == j && Concerned(s.callbacks, e.key, j) then 1 else 0)
  {
    if Jumps(s, op) {
      CallsCount(s.callbacks, JumpOf(s, op, system), true, e);
      CallsCount(s.callbacks, JumpOf(s, op, system), false, e);
    }
  }

  lemma ConcernedIff(infos: seq<Info>, info: Info, j: Jump)
    requires KeysAreUnique(infos) && info in infos
    ensures Concerned(infos, info.key, j) <==> Exceeds(info.threshold, j)
  {
    var k :| 0 <= k < |infos| && infos[k] == info;
    if i :| 0 <= i < |infos| && infos[i].key == info.key && Exceeds(infos[i].threshold, j) {
      assert i == k;
    }
  }

  lemma CountAround(infos: seq<Info>, j: Jump, e: Event)
    requires KeysAreUnique(infos) && e.Called?
    ensures Count(Around(infos, j), e) == if e.jump == j && Concerned(infos, e.key, j) then 1 else 0
  {
    var first, second := Calls(infos, j, true), Calls(infos, j, false);
    CallsCount(infos, j, true, e);
    CallsCount(infos, j, false, e);
    assert multiset(first + [Changed(j)] + second) == multiset(first) + multiset{Changed(j)} + multiset(second);
  }

  predicate SwitchedBy(s: State, op: Op) {
    After(s, op).active != s.active
  }

  /** Main result: whether an operation calls a callback is decided by the readings before and after
      it and by whether it switched the override.  The callback is called, once before and once
      after, exactly if the clock switched and the callback asks for that, or the reading went
      forwards by at least a positive minimum, or backwards by at least a negative one. */
  lemma CalledExactlyIf(s: State, op: Op, system: int, info: Info, before: bool)
    requires KeysAreUnique(s.callbacks) && info in s.callbacks
    requires info.threshold.minForward >= 0 && info.threshold.minBackward <= 0
    ensures var delta := Reading(After(s, op), system) - Reading(s, system);
            var change := if !SwitchedBy(s, op) then RosTimeNoChange
                          else if s.active then RosTimeDeactivated else RosTimeActivated;
            Count(EventsOf(s, op, system), Called(info.key, Jump(change, delta), before)) ==
            if (SwitchedBy(s, op) && info.threshold.onClockChange)
               || 0 < info.threshold.minForward <= delta || delta <= info.threshold.minBackward < 0
            then 1 else 0
  {
    if Jumps(s, op) {
      var j := JumpOf(s, op, system);
      ConcernedIff(s.callbacks, info, j);
      CountAround(s.callbacks, j, Called(info.key, j, before));
    }
  }

  /** Which operations are refused, and why. */
  lemma RefusedExactlyIf(s: State, op: Op)
    ensures RetOf(s, op) == InvalidArgument <==>
            if op.AddCallback? then op.threshold.minForward < 0 || op.threshold.minBackward > 0
            else !op.RemoveCallback? && s.clockType != RosTime
    ensures RetOf(s, op) == Error <==>
            || (op.AddCallback? && op.threshold.minForward >= 0 && op.threshold.minBackward <= 0
                && op.key in Keys(s.callbacks))
            || (op.RemoveCallback? && op.key !in Keys(s.callbacks))
    ensures RetOf(s, op) != Ok ==> After(s, op) == s
  {
    match op
    case AddCallback(key, _) => KeyIsPresentIff(s.callbacks, key);
    case RemoveCallback(key) => KeyIsPresentIff(s.callbacks, key);
    case _ =>
  }

  // ----- runs -----

  /** An operation at a system time. */
  datatype Step = Step(op: Op, system: int)

  function RunState(s: State, run: seq<Step>): State
    decreases |run|
  {
    if run == [] then s else RunState(After(s, run[0].op), run[1..])
  }

  function RunEvents(s: State, run: seq<Step>): seq<Event>
    decreases |run|
  {
    if run == [] then []
    else EventsOf(s, run[0].op, run[0].system) + RunEvents(After(s, run[0].op), run[1..])
  }

  // ----- what the clock reads -----

  /** The argument of the last Set of a run, or `initial` if it has none. */
  function LastSet(run: seq<Step>, initial: int): int
    decreases |run|
  {
    if run == [] then initial else
      var n := |run| - 1;
      if run[n].op.Set? then run[n].op.time else LastSet(run[..n], initial)
  }

  /** Whether the last Enable or Disable of a run is an Enable, or `initial` if it has none. */
  predicate LastSwitch(run: seq<Step>, initial: bool)
    decreases |run|
  {
    if run == [] then initial else
      var n := |run| - 1;
      if run[n].op.Enable? then true else if run[n].op.Disable? then false else LastSwitch(run[..n], initial)
  }

  lemma {:induction false} RunSnoc(s: State, run: seq<Step>, next: Step)
    ensures RunState(s, run + [next]) == After(RunState(s, run), next.op)
    decreases |run|
  {
    if run == [] {
      assert [next][1..] == [];
      assert RunState(s, [next]) == After(s, next.op);
      assert run + [next] == [next];
    } else {
      assert (run + [next])[1..] == run[1..] + [next];
      RunSnoc(After(s, run[0].op), run[1..], next);
    }
  }

  lemma {:induction false} FieldsOverRuns(s: State, run: seq<Step>)
    ensures var end := RunState(s, run);
            && end.clockType == s.clockType
            && (s.clockType == RosTime ==> end.active == LastSwitch(run, s.active))
            && (s.clockType == RosTime ==> end.value == LastSet(run, s.value))
    decreases |run|
  {
    if run == [] {
    } else {
      var n := |run| - 1;
      assert run[..n] + [run[n]] == run;
      FieldsOverRuns(s, run[..n]);
      RunSnoc(s, run[..n], run[n]);
    }
  }

  /** Main result: after every run a ROS clock reads the argument of the last Set, whether or not the
      override was on then, if the last switch enabled the override, and the system time otherwise;
      a clock of another type always reads the system time. */
  lemma ReadingAfterRun(s: State, run: seq<Step>, system: int)
    ensures Reading(RunState(s, run), system) ==
            if s.clockType == RosTime && LastSwitch(run, s.active) then LastSet(run, s.value) else system
  {
    FieldsOverRuns(s, run);
  }

  /** A callback that is in place has thresholds of the right signs, over every run. */
  lemma {:induction false} ThresholdsStayValid(s: State, run: seq<Step>)
    requires forall info :: info in s.callbacks ==> info.threshold.minForward >= 0 && info.threshold.minBackward <= 0
    ensures forall info :: info in RunState(s, run).callbacks ==>
              info.threshold.minForward >= 0 && info.threshold.minBackward <= 0
    decreases |run|
  {
    if run == [] {
    } else {
      ThresholdsStayValid(After(s, run[0].op), run[1..]);
    }
  }

  // ----- runs are bracketed -----

  /** How far the callback with a given key is through a jump. */
  datatype Phase = Idle | Warned(jump: Jump) | Jumped(jump: Jump) | Broken

  function Next(p: Phase, key: Key, e: Event): Phase {
    match e
    case Changed(j) => if p.Idle? then Idle else if p == Warned(j) then Jumped(j) else Broken
    case Called(k, j, before) =>
      if k != key then p
      else if before then (if p.Idle? then Warned(j) else Broken)
      else if p == Jumped(j) then Idle else Broken
  }

  function PhaseAfter(p: Phase, key: Key, events: seq<Event>): Phase {
    if events == [] then p
    else Next(PhaseAfter(p, key, events[..|events| - 1]), key, events[|events| - 1])
  }

  lemma {:induction false} PhaseConcat(p: Phase, key: Key, a: seq<Event>, b: seq<Event>)
    ensures PhaseAfter(p, key, a + b) == PhaseAfter(PhaseAfter(p, key, a), key, b)
    decreases |b|
  {
    if b == [] {
      assert a + b == a;
    } else {
      assert (a + b)[..|a + b| - 1] == a + b[..|b| - 1];
      PhaseConcat(p, key, a, b[..|b| - 1]);
    }
  }

  lemma PhaseSnoc(p: Phase, key: Key, a: seq<Event>, e: Event)
    ensures PhaseAfter(p, key, a + [e]) == Next(PhaseAfter(p, key, a), key, e)
  {
    assert (a + [e])[..|a|] == a;
  }

  /** Through one round of calls the phase moves once if the callback is concerned, else not. */
  lemma {:induction false} CallsPhase(p: Phase, key: Key, infos: seq<Info>, j: Jump, before: bool)
    requires KeysAreUnique(infos)
    ensures PhaseAfter(p, key, Calls(infos, j, before)) ==
            if Concerned(infos, key, j) then Next(p, key, Called(key, j, before)) else p
    decreases |infos|
  {
    if infos == [] {
    } else {
      var n := |infos| - 1;
      var init := infos[..n];
      CallsStep(infos, j, before);
      CallsPhase(p, key, init, j, before);
      PhaseSnoc(p, key, Calls(init, j, before), Called(infos[n].key, j, before));
      ConcernedSnoc(infos, key, j);
    }
  }

  lemma OpPhase(s: State, op: Op, system: int, key: Key)
    requires KeysAreUnique(s.callbacks)
    ensures PhaseAfter(Idle, key, EventsOf(s, op, system)) == Idle
  {
    if Jumps(s, op) {
      var j := JumpOf(s, op, system);
      var first, second := Calls(s.callbacks, j, true), Calls(s.callbacks, j, false);
      CallsPhase(Idle, key, s.callbacks, j, true);
      PhaseSnoc(Idle, key, first, Changed(j));
      PhaseConcat(Idle, key, first + [Changed(j)], second);
      CallsPhase(PhaseAfter(Idle, key, first + [Changed(j)]), key, s.callbacks, j, false);
    }
  }

  /** Main result: over every run keys stay unique, and every callback sees its jumps well
      bracketed: called before a change, then after that same change, and never otherwise. */
  lemma {:induction false} RunsAreBracketed(s: State, run: seq<Step>, key: Key)
    requires KeysAreUnique(s.callbacks)
    ensures KeysAreUnique(RunState(s, run).callbacks)
    ensures PhaseAfter(Idle, key, RunEvents(s, run)) == Idle
    decreases |run|
  {
    if run == [] {
    } else {
      var op, system := run[0].op, run[0].system;
      KeysStayUnique(s, op);
      OpPhase(s, op, system, key);
      RunsAreBracketed(After(s, op), run[1..], key);
      PhaseConcat(Idle, key, EventsOf(s, op, system), RunEvents(After(s, op), run[1..]));
    }
  }

  // ----- the reading is conserved -----

  /** The jumps of all changes, added up. */
  function Deltas(events: seq<Event>): int {
    if events == [] then 0 else
      Deltas(events[..|events| - 1]) + if events[|events| - 1].Changed? then events[|events| - 1].jump.delta else 0
  }

  lemma {:induction false} DeltasConcat(a: seq<Event>, b: seq<Event>)
    ensures Deltas(a + b) == Deltas(a) + Deltas(b)
    decreases |b|
  {
    if b == [] {
      assert a + b == a;
    } else {
      assert (a + b)[..|a + b| - 1] == a + b[..|b| - 1];
      DeltasConcat(a, b[..|b| - 1]);
    }
  }

  lemma {:induction false} CallsHaveNoDelta(infos: seq<Info>, j: Jump, before: bool)
    ensures Deltas(Calls(infos, j, before)) == 0
    decreases |infos|
  {
    if infos == [] {
    } else {
      var last := infos[|infos| - 1];
      CallsHaveNoDelta(infos[..|infos| - 1], j, before);
      var called := if Exceeds(last.threshold, j) then [Called(last.key, j, before)] else [];
      DeltasConcat(Calls(infos[..|infos| - 1], j, before), called);
    }
  }

  lemma OpDeltas(s: State, op: Op, system: int)
    ensures Deltas(EventsOf(s, op, system)) == Reading(After(s, op), system) - Reading(s, system)
  {
    if Jumps(s, op) {
      var j := JumpOf(s, op, system);
      var first, second := Calls(s.callbacks, j, true), Calls(s.callbacks, j, false);
      CallsHaveNoDelta(s.callbacks, j, true);
      CallsHaveNoDelta(s.callbacks, j, false);
      DeltasConcat(first, [Changed(j)]);
      DeltasConcat(first + [Changed(j)], second);
    }
  }

  /** How much the system time moves the reading over a run that begins at `system` and ends at
      `end`: it does while the override is off. */
  function Drift(s: State, run: seq<Step>, system: int, end: int): int
    decreases |run|
  {
    if run == [] then Reading(s, end) - Reading(s, system)
    else Reading(s, run[0].system) - Reading(s, system) + Drift(After(s, run[0].op), run[1..], run[0].system, end)
  }

  /** Main result: over every run the reading at the end is the reading at the start, plus all
      jumps, plus what the system time moved it; no change of the clock escapes the jumps. */
  lemma {:induction false} JumpsAccountForReading(s: State, run: seq<Step>, system: int, end: int)
    ensures Reading(RunState(s, run), end) ==
            Reading(s, system) + Deltas(RunEvents(s, run)) + Drift(s, run, system, end)
    decreases |run|
  {
    if run == [] {
    } else {
      var op, now := run[0].op, run[0].system;
      OpDeltas(s, op, now);
      JumpsAccountForReading(After(s, op), run[1..], now, end);
      DeltasConcat(EventsOf(s, op, now), RunEvents(After(s, op), run[1..]));
    }
  }

  /** While the override stays on the system time moves nothing. */
  lemma {:induction false} NoDriftWhileActive(s: State, run: seq<Step>, system: int, end: int)
    requires s.clockType == RosTime && s.active && forall i :: 0 <= i < |run| ==> !run[i].op.Disable?
    ensures Drift(s, run, system, end) == 0
    decreases |run|
  {
    if run == [] {
    } else {
      NoDriftWhileActive(After(s, run[0].op), run[1..], run[0].system, end);
    }
  }
}
