/** The tracked goals of an action server: src/rcl_action/action_server.h and
    src/rcl_action/goal_handle.h.

    `Goal` is what a goal handle holds; the server's array of handles is an object field that the
    methods reassign.  Every method is tied to a function on `seq<Goal>`, and the properties that
    hold over whole runs are proved about those functions.
 */
module ActionServer {
  import opened Common
  import opened GoalStates

  const UUID_SIZE := 16

  type Uuid = u: seq<uint8> | |u| == UUID_SIZE witness seq(UUID_SIZE, _ => 0)

  const ZERO_UUID: Uuid := [0, 0, 0, 0, 0, 0, 0, 0, 0, 0, 0, 0, 0, 0, 0, 0]

  datatype Stamp = Stamp(sec: int32, nanosec: uint32) {
    function Nanoseconds(): int { sec * 1000000000 + nanosec }

    predicate IsZero() { sec == 0 && nanosec == 0 }
  }

  datatype GoalInfo = GoalInfo(id: Uuid, stamp: Stamp)

  // The source's INVAILD_GOAL_TERMINAL_TIMESTAMP.
  const NOT_TERMINATED: int := -1

  datatype Goal = Goal(info: GoalInfo, state: State, terminalStamp: int) {
    /** A terminal timestamp is available exactly in a terminal state. */
    predicate Valid() {
      && !state.Unknown?
      && (terminalStamp != NOT_TERMINATED <==> IsTerminal(state))
    }
  }

  function Fresh(info: GoalInfo): Goal {
    Goal(info, Accepted, NOT_TERMINATED)
  }

  /** rcl_action_update_goal_state at time `now`: entering a terminal state records the time. */
  function UpdatedGoal(g: Goal, e: Event, now: nat): Goal {
    var next := Transition(g.state, e);
    if next.Unknown? then g
    else g.(state := next, terminalStamp := if IsTerminal(next) then now else g.terminalStamp)
  }

  // ----- expiry -----

  /** A goal has expired if it has been terminal for longer than the timeout; a negative timeout
      keeps results forever, and a zero timeout discards every result. */
  predicate Expired(g: Goal, now: int, timeout: int) {
    timeout >= 0 && IsTerminal(g.state) && (timeout == 0 || now - g.terminalStamp > timeout)
  }

  datatype Expiry = Expiry(kept: seq<Goal>, expired: seq<Goal>)

  /** Expires goals in array order, at most `capacity` of them if the caller gave an output array
      of that capacity; zero stands for no output array. */
  function Expire(gs: seq<Goal>, now: int, timeout: int, capacity: nat): Expiry
    decreases |gs|
  {
    if gs == [] then Expiry([], []) else
      var last := |gs| - 1;
      var x := Expire(gs[..last], now, timeout, capacity);
      if Expired(gs[last], now, timeout) && (capacity == 0 || |x.expired| < capacity)
      then x.(expired := x.expired + [gs[last]])
      else x.(kept := x.kept + [gs[last]])
  }

  lemma ExpireNext(gs: seq<Goal>, now: int, timeout: int, capacity: nat, k: nat)
    requires k < |gs|
    ensures var x := Expire(gs[..k], now, timeout, capacity);
            Expire(gs[..k + 1], now, timeout, capacity) ==
            if Expired(gs[k], now, timeout) && (capacity == 0 || |x.expired| < capacity)
            then x.(expired := x.expired + [gs[k]])
            else x.(kept := x.kept + [gs[k]])
  {
    assert gs[..k + 1][..k] == gs[..k];
  }

  function Infos(gs: seq<Goal>): (infos: seq<GoalInfo>)
    ensures |infos| == |gs|
    ensures forall i :: 0 <= i < |gs| ==> infos[i] == gs[i].info
  {
    seq(|gs|, i requires 0 <= i < |gs| => gs[i].info)
  }

  /** Index of the goal with the given id, or -1. */
  function Find(gs: seq<Goal>, id: Uuid): (i: int)
    ensures -1 <= i < |gs|
    ensures i == -1 <==> !Tracked(gs, id)
    ensures i >= 0 ==> gs[i].info.id == id && !Tracked(gs[..i], id)
    decreases |gs|
  {
    if gs == [] then -1 else
      var last := |gs| - 1;
      var i := Find(gs[..last], id);
      assert i >= 0 ==> gs[..last][..i] == gs[..i];
      assert gs == gs[..last] + [gs[last]];
      if i >= 0 then i else if gs[last].info.id == id then last else -1
  }

  predicate Tracked(gs: seq<Goal>, id: Uuid) {
    exists i :: 0 <= i < |gs| && gs[i].info.id == id
  }

  predicate UniqueIds(gs: seq<Goal>) {
    forall i, j :: 0 <= i < j < |gs| ==> gs[i].info.id != gs[j].info.id
  }

  predicate Consistent(gs: seq<Goal>) {
    UniqueIds(gs) && forall i :: 0 <= i < |gs| ==> gs[i].Valid()
  }

  // ----- cancel requests -----

  /** The cancel policy, case by case, as the header lists it. */
  predicate Selects(request: GoalInfo, info: GoalInfo) {
    if request.id == ZERO_UUID then
      request.stamp.IsZero() || info.stamp.Nanoseconds() <= request.stamp.Nanoseconds()
    else if request.stamp.IsZero() then
      info.id == request.id
    else
      info.id == request.id || info.stamp.Nanoseconds() <= request.stamp.Nanoseconds()
  }

  function Selected(gs: seq<Goal>, request: GoalInfo): seq<GoalInfo>
    decreases |gs|
  {
    if gs == [] then [] else
      var last := |gs| - 1;
      Selected(gs[..last], request) + if Selects(request, gs[last].info) then [gs[last].info] else []
  }

  // ----- the objects -----

  class GoalHandle {
    const info: GoalInfo
    var state: State
    var terminalStamp: int

    ghost function View(): Goal
      reads this
    {
      Goal(info, state, terminalStamp)
    }

    constructor (info: GoalInfo)
      ensures View() == Fresh(info)
    {
      this.info, state, terminalStamp := info, Accepted, NOT_TERMINATED;
    }

    /** False stands for RCL_RET_ACTION_GOAL_EVENT_INVALID. */
    method UpdateState(e: Event, now: nat) returns (ok: bool)
      requires View().Valid()
      modifies this
      ensures View() == UpdatedGoal(old(View()), e, now) && View().Valid()
      ensures ok <==> Transition(old(state), e) != Unknown
      ensures !ok ==> View() == old(View())
    {
      var next := Transition(state, e);
      ok := next != Unknown;
      if ok {
        state := next;
        if IsTerminal(next) {
          terminalStamp := now;
        }
      }
    }

    /** False stands for RCL_ACTION_RET_NOT_TERMINATED_YET. */
    method GetTerminalTimestamp() returns (ok: bool, stamp: int)
      requires View().Valid()
      ensures ok <==> !IsActive(state)
      ensures ok ==> stamp == terminalStamp != NOT_TERMINATED
    {
      stamp := terminalStamp;
      ok := stamp != NOT_TERMINATED;
    }
  }

  ghost function Views(hs: seq<GoalHandle>): (gs: seq<Goal>)
    reads hs
    ensures |gs| == |hs|
    ensures forall i :: 0 <= i < |gs| ==> gs[i] == hs[i].View()
  {
    seq(|hs|, i requires 0 <= i < |hs| reads hs => hs[i].View())
  }

  class Server {
    const timeout: int
    var handles: seq<GoalHandle>

    ghost function Goals(): (gs: seq<Goal>)
      reads this, handles
      ensures |gs| == |handles|
      ensures forall i :: 0 <= i < |gs| ==> gs[i] == handles[i].View()
    {
      Views(handles)
    }

    ghost predicate Valid()
      reads this, handles
    {
      Consistent(Goals())
    }

    constructor (timeout: int)
      ensures Valid() && Goals() == [] && this.timeout == timeout
    {
      this.timeout, handles := timeout, [];
    }

    /** rcl_action_server_goal_exists */
    method GoalExists(info: GoalInfo) returns (found: bool)
      ensures found <==> Tracked(Goals(), info.id)
    {
      found := false;
      for k := 0 to |handles|
        invariant !found ==> forall i :: 0 <= i < k ==> Goals()[i].info.id != info.id
        invariant found ==> Tracked(Goals(), info.id)
      {
        if handles[k].info.id == info.id {
          assert Goals()[k].info.id == info.id;
          found := true;
        }
      }
    }

    /** rcl_action_accept_new_goal; null if the goal id is already tracked. */
    method AcceptNewGoal(info: GoalInfo) returns (h: GoalHandle?)
      requires Valid()
      modifies this
      ensures Valid()
      ensures h == null <==> Tracked(old(Goals()), info.id)
      ensures h == null ==> handles == old(handles) && Goals() == old(Goals())
      ensures h != null ==> fresh(h) && handles == old(handles) + [h]
      ensures h != null ==> Goals() == old(Goals()) + [Fresh(info)]
    {
      var found := GoalExists(info);
      if found {
        return null;
      }
      h := new GoalHandle(info);
      handles := handles + [h];
      assert Goals() == old(Goals()) + [Fresh(info)];
    }

    /** The caller updates a goal through a handle that the server tracks. */
    method UpdateTracked(k: nat, e: Event, now: nat) returns (ok: bool)
      requires Valid() && k < |handles|
      modifies handles[k]
      ensures Valid()
      ensures Goals() == old(Goals())[k := UpdatedGoal(old(Goals()[k]), e, now)]
      ensures ok <==> Transition(old(Goals()[k].state), e) != Unknown
    {
      assert Goals()[k].Valid();
      assert forall i :: 0 <= i < |handles| && i != k ==> Goals()[i].info.id != Goals()[k].info.id;
      ok := handles[k].UpdateState(e, now);
      assert Goals() == old(Goals())[k := UpdatedGoal(old(Goals()[k]), e, now)];
    }

    /** rcl_action_expire_goals.  A capacity of zero means the output array is not used. */
    method ExpireGoals(now: int, capacity: nat) returns (expired: seq<GoalInfo>)
      requires Valid()
      modifies this
      ensures Valid()
      ensures Goals() == Expire(old(Goals()), now, timeout, capacity).kept
      ensures expired == Infos(Expire(old(Goals()), now, timeout, capacity).expired)
    {
      ghost var gs := Goals();
      var kept: seq<GoalHandle> := [];
      expired := [];
      ghost var x := Expiry([], []);
      for k := 0 to |handles|
        invariant x == Expire(gs[..k], now, timeout, capacity)
        invariant Views(kept) == x.kept
        invariant expired == Infos(x.expired)
        modifies {}
      {
        var h := handles[k];
        ExpireNext(gs, now, timeout, capacity, k);
        var expires := timeout >= 0 && IsTerminal(h.state) && (timeout == 0 || now - h.terminalStamp > timeout);
        if expires && (capacity == 0 || |expired| < capacity) {
          expired := expired + [h.info];
          x := x.(expired := x.expired + [gs[k]]);
        } else {
          assert Views(kept + [h]) == Views(kept) + [gs[k]];
          kept := kept + [h];
          x := x.(kept := x.kept + [gs[k]]);
        }
      }
      assert gs[..|gs|] == gs;
      handles := kept;
      ExpireKeepsConsistency(gs, now, timeout, capacity);
    }

    /** rcl_action_process_cancel_request changes no goal. */
    method ProcessCancelRequest(request: GoalInfo) returns (response: seq<GoalInfo>)
      ensures response == Selected(Goals(), request)
    {
      response := [];
      var all := request.id == ZERO_UUID && request.stamp.IsZero();
      var byStamp := !request.stamp.IsZero();
      var byId := request.id != ZERO_UUID;
      for k := 0 to |handles|
        invariant response == Selected(Goals()[..k], request)
      {
        var info := handles[k].info;
        assert Goals()[..k + 1][..k] == Goals()[..k] && Goals()[k].info == info;
        if all || (byStamp && info.stamp.Nanoseconds() <= request.stamp.Nanoseconds())
               || (byId && info.id == request.id) {
          response := response + [info];
        }
      }
      assert Goals()[..|handles|] == Goals();
    }
  }

  // ----- expiry: what one call does -----

  lemma {:induction false} ExpireMembers(gs: seq<Goal>, now: int, timeout: int, capacity: nat)
    ensures var x := Expire(gs, now, timeout, capacity);
            && |x.kept| + |x.expired| == |gs|
            && (forall g :: g in x.kept || g in x.expired <==> g in gs)
            && (forall g :: g in x.expired ==> Expired(g, now, timeout))
            && (timeout < 0 ==> x.expired == [])
            && (capacity > 0 ==> |x.expired| <= capacity)
            && (capacity == 0 || |x.expired| < capacity ==> forall g :: g in x.kept ==> !Expired(g, now, timeout))
    decreases |gs|
  {
    if gs == [] {
    } else {
      assert gs == gs[..|gs| - 1] + [gs[|gs| - 1]];
      ExpireMembers(gs[..|gs| - 1], now, timeout, capacity);
    }
  }

  /** Main result: with no output array, exactly the expired goals are removed: none for a negative
      timeout, every terminal goal for zero, and otherwise those terminal for strictly longer than
      the timeout.  The goals before are the goals after plus those counted as expired. */
  lemma {:induction false} ExpireRemovesExactly(gs: seq<Goal>, now: int, timeout: int, g: Goal)
    ensures var x := Expire(gs, now, timeout, 0);
            && |gs| == |x.kept| + |x.expired|
            && (g in x.kept <==> g in gs && !Expired(g, now, timeout))
            && (g in x.expired <==> g in gs && Expired(g, now, timeout))
            && (timeout < 0 ==> x.expired == [])
            && (timeout == 0 ==> (g in x.expired <==> g in gs && IsTerminal(g.state)))
            && (g in gs && IsActive(g.state) ==> g in x.kept)
  {
    ExpireMembers(gs, now, timeout, 0);
  }

  /** With an output array, the goals removed are those that would have been removed without one,
      cut to the capacity. */
  lemma {:induction false} ExpireFillsOutput(gs: seq<Goal>, now: int, timeout: int, capacity: nat)
    requires capacity > 0
    ensures var all, x := Expire(gs, now, timeout, 0).expired, Expire(gs, now, timeout, capacity).expired;
            x == if |all| <= capacity then all else all[..capacity]
    decreases |gs|
  {
    if gs == [] {
    } else {
      ExpireFillsOutput(gs[..|gs| - 1], now, timeout, capacity);
    }
  }

  lemma {:induction false} ExpireKeepsConsistency(gs: seq<Goal>, now: int, timeout: int, capacity: nat)
    requires Consistent(gs)
    ensures Consistent(Expire(gs, now, timeout, capacity).kept)
    decreases |gs|
  {
    if gs == [] {
    } else {
      var last := |gs| - 1;
      var before := Expire(gs[..last], now, timeout, capacity).kept;
      ExpireKeepsConsistency(gs[..last], now, timeout, capacity);
      ExpireMembers(gs[..last], now, timeout, capacity);
      forall i | 0 <= i < |before| ensures before[i].info.id != gs[last].info.id {
        assert before[i] in gs[..last];
      }
    }
  }

  // ----- runs of accept, update and expire -----

  datatype Op =
    | Accept(info: GoalInfo)
    | Update(id: Uuid, event: Event, now: nat)
    | ExpireAt(now: nat, capacity: nat)

  /** The goals tracked, and the goals that every expiry so far has reported. */
  datatype History = History(goals: seq<Goal>, accepted: seq<Uuid>, expired: seq<Uuid>)

  function Ids(gs: seq<Goal>): (ids: seq<Uuid>)
    ensures |ids| == |gs|
    ensures forall i :: 0 <= i < |gs| ==> ids[i] == gs[i].info.id
  {
    seq(|gs|, i requires 0 <= i < |gs| => gs[i].info.id)
  }

  function Step(h: History, timeout: int, op: Op): History {
    match op
    case Accept(info) =>
      if Tracked(h.goals, info.id) then h
      else History(h.goals + [Fresh(info)], h.accepted + [info.id], h.expired)
    case Update(id, event, now) =>
      var k := Find(h.goals, id);
      if k < 0 then h else h.(goals := h.goals[k := UpdatedGoal(h.goals[k], event, now)])
    case ExpireAt(now, capacity) =>
      var x := Expire(h.goals, now, timeout, capacity);
      h.(goals := x.kept, expired := h.expired + Ids(x.expired))
  }

  function Play(h: History, timeout: int, ops: seq<Op>): History
    decreases ops
  {
    if ops == [] then h else Play(Step(h, timeout, ops[0]), timeout, ops[1..])
  }

  /** Every accepted id is accounted for: still tracked, or reported as expired. */
  predicate Accounted(h: History) {
    && Consistent(h.goals)
    && multiset(h.accepted) == multiset(Ids(h.goals)) + multiset(h.expired)
  }

  lemma IdsSnoc(gs: seq<Goal>, g: Goal)
    ensures multiset(Ids(gs + [g])) == multiset(Ids(gs)) + multiset{g.info.id}
  {
    assert Ids(gs + [g]) == Ids(gs) + [g.info.id];
  }

  lemma {:induction false} ExpireConservesIds(gs: seq<Goal>, now: int, timeout: int, capacity: nat)
    ensures var x := Expire(gs, now, timeout, capacity);
            multiset(Ids(gs)) == multiset(Ids(x.kept)) + multiset(Ids(x.expired))
    decreases |gs|
  {
    if gs == [] {
    } else {
      var last := |gs| - 1;
      var x := Expire(gs[..last], now, timeout, capacity);
      assert gs == gs[..last] + [gs[last]];
      IdsSnoc(gs[..last], gs[last]);
      ExpireConservesIds(gs[..last], now, timeout, capacity);
      IdsSnoc(x.kept, gs[last]);
      IdsSnoc(x.expired, gs[last]);
    }
  }

  lemma UpdateKeepsConsistency(gs: seq<Goal>, k: nat, event: Event, now: nat)
    requires Consistent(gs) && k < |gs|
    ensures var gs' := gs[k := UpdatedGoal(gs[k], event, now)]; Consistent(gs') && Ids(gs') == Ids(gs)
  {
    var gs' := gs[k := UpdatedGoal(gs[k], event, now)];
    assert gs[k].Valid() && gs'[k].Valid();
    assert Ids(gs') == Ids(gs);
  }

  lemma StepKeepsAccounts(h: History, timeout: int, op: Op)
    requires Accounted(h)
    ensures Accounted(Step(h, timeout, op))
  {
    var h' := Step(h, timeout, op);
    match op
    case Accept(info) =>
      if !Tracked(h.goals, info.id) {
        assert Ids(h'.goals) == Ids(h.goals) + [info.id];
      }
    case Update(id, event, now) =>
      var k := Find(h.goals, id);
      if k >= 0 {
        UpdateKeepsConsistency(h.goals, k, event, now);
      }
    case ExpireAt(now, capacity) =>
      var x := Expire(h.goals, now, timeout, capacity);
      ExpireKeepsConsistency(h.goals, now, timeout, capacity);
      ExpireConservesIds(h.goals, now, timeout, capacity);
  }

  /** Main result: over every run of accepts, updates and expiries of a new server, goal ids stay
      unique, every goal has a terminal timestamp exactly when it is terminal, and every id ever
      accepted is either still tracked or was reported as expired, as often as it was accepted. */
  lemma RunsKeepAccounts(timeout: int, ops: seq<Op>)
    ensures Accounted(Play(History([], [], []), timeout, ops))
  {
    PlayKeepsAccounts(History([], [], []), timeout, ops);
  }

  lemma {:induction false} PlayKeepsAccounts(h: History, timeout: int, ops: seq<Op>)
    requires Accounted(h)
    ensures Accounted(Play(h, timeout, ops))
    decreases ops
  {
    if ops == [] {
    } else {
      StepKeepsAccounts(h, timeout, ops[0]);
      PlayKeepsAccounts(Step(h, timeout, ops[0]), timeout, ops[1..]);
    }
  }

  /** An active goal is never lost: whatever single operation runs, a goal with its id is still
      tracked afterwards. */
  lemma ActiveGoalsStayTracked(h: History, timeout: int, op: Op, k: nat)
    requires k < |h.goals| && IsActive(h.goals[k].state)
    ensures Tracked(Step(h, timeout, op).goals, h.goals[k].info.id)
  {
    var h' := Step(h, timeout, op);
    var id := h.goals[k].info.id;
    match op
    case Accept(_) =>
      assert h'.goals[k].info.id == id;
    case Update(_, _, _) =>
      assert h'.goals[k].info.id == id;
    case ExpireAt(now, capacity) =>
      var x := Expire(h.goals, now, timeout, capacity);
      ExpireMembers(h.goals, now, timeout, capacity);
      var g := h.goals[k];
      assert g in h.goals && g !in x.expired;
      var i :| 0 <= i < |x.kept| && x.kept[i] == g;
  }

  /** The goal with the given id is tracked and has ended. */
  predicate HasEnded(gs: seq<Goal>, id: Uuid) {
    exists i :: 0 <= i < |gs| && gs[i].info.id == id && IsTerminal(gs[i].state)
  }

  lemma TrackedUnlessEnded(h: History, timeout: int, op: Op, id: Uuid)
    requires Consistent(h.goals) && Tracked(h.goals, id)
    ensures HasEnded(h.goals, id) || Tracked(Step(h, timeout, op).goals, id)
  {
    var i :| 0 <= i < |h.goals| && h.goals[i].info.id == id;
    if !IsTerminal(h.goals[i].state) {
      assert h.goals[i].Valid();
      ActiveGoalsStayTracked(h, timeout, op, i);
    }
  }

  /** At some moment of the run, before its last operation, the goal with the given id had ended. */
  predicate EndedDuring(h: History, timeout: int, ops: seq<Op>, id: Uuid)
    decreases |ops|
  {
    ops != [] && (HasEnded(h.goals, id) || EndedDuring(Step(h, timeout, ops[0]), timeout, ops[1..], id))
  }

  lemma {:induction false} EndedDuringMeans(h: History, timeout: int, ops: seq<Op>, id: Uuid) returns (k: nat)
    requires EndedDuring(h, timeout, ops, id)
    ensures k < |ops| && HasEnded(Play(h, timeout, ops[..k]).goals, id)
    decreases |ops|
  {
    if HasEnded(h.goals, id) {
      k := 0;
    } else {
      k := EndedDuringMeans(Step(h, timeout, ops[0]), timeout, ops[1..], id);
      assert ops[..k + 1][1..] == ops[1..][..k];
      k := k + 1;
    }
  }

  lemma {:induction false} TrackedThroughout(h: History, timeout: int, ops: seq<Op>, id: Uuid)
    requires Accounted(h) && Tracked(h.goals, id) && !EndedDuring(h, timeout, ops, id)
    ensures Tracked(Play(h, timeout, ops).goals, id)
    decreases |ops|
  {
    if ops == [] {
    } else {
      TrackedUnlessEnded(h, timeout, ops[0], id);
      StepKeepsAccounts(h, timeout, ops[0]);
      TrackedThroughout(Step(h, timeout, ops[0]), timeout, ops[1..], id);
    }
  }

  /** Main result: over every run a tracked goal is still tracked at the end, unless at some moment
      before it had ended. */
  lemma OnlyEndedGoalsGo(h: History, timeout: int, ops: seq<Op>, id: Uuid)
    requires Accounted(h) && Tracked(h.goals, id)
    ensures Tracked(Play(h, timeout, ops).goals, id) ||
            exists k :: 0 <= k < |ops| && HasEnded(Play(h, timeout, ops[..k]).goals, id)
  {
    if EndedDuring(h, timeout, ops, id) {
      var k := EndedDuringMeans(h, timeout, ops, id);
    } else {
      TrackedThroughout(h, timeout, ops, id);
    }
  }

  lemma TrackedSnoc(gs: seq<Goal>, g: Goal, id: Uuid)
    ensures Tracked(gs + [g], id) <==> Tracked(gs, id) || g.info.id == id
  {
    assert (gs + [g])[|gs|] == g;
    if i :| 0 <= i < |gs| && gs[i].info.id == id {
      assert (gs + [g])[i].info.id == id;
    }
  }

  lemma NoneHasIdOfNext(gs: seq<Goal>, now: int, timeout: int, capacity: nat)
    requires UniqueIds(gs) && gs != []
    ensures var x, next := Expire(gs[..|gs| - 1], now, timeout, capacity), gs[|gs| - 1];
            && !Tracked(x.kept, next.info.id)
            && forall g :: g in x.kept || g in x.expired ==> g.info.id != next.info.id
  {
    var before, next := gs[..|gs| - 1], gs[|gs| - 1];
    var x := Expire(before, now, timeout, capacity);
    ExpireMembers(before, now, timeout, capacity);
    forall g | g in before ensures g.info.id != next.info.id {
    }
    forall i | 0 <= i < |x.kept| ensures x.kept[i].info.id != next.info.id {
      assert x.kept[i] in before;
    }
  }

  /** After an expiry no goal that expired is tracked any more, and every goal that did not is. */
  lemma {:induction false} ExpiredAreGone(gs: seq<Goal>, now: int, timeout: int, capacity: nat, g: Goal)
    requires UniqueIds(gs)
    ensures var x := Expire(gs, now, timeout, capacity);
            && (g in x.expired ==> !Tracked(x.kept, g.info.id))
            && (g in x.kept ==> Tracked(x.kept, g.info.id))
    decreases |gs|
  {
    if gs == [] {
    } else {
      var last := |gs| - 1;
      var x := Expire(gs[..last], now, timeout, capacity);
      ExpiredAreGone(gs[..last], now, timeout, capacity, g);
      NoneHasIdOfNext(gs, now, timeout, capacity);
      TrackedSnoc(x.kept, gs[last], g.info.id);
    }
  }

  // ----- from the end of a goal to its expiry -----

  /** The goal with the given id is tracked, and it ended at time `n`. */
  predicate EndedAt(gs: seq<Goal>, id: Uuid, n: int) {
    exists i :: 0 <= i < |gs| && gs[i].info.id == id && IsTerminal(gs[i].state) && gs[i].terminalStamp == n
  }

  lemma {:induction false} PlayConcat(h: History, timeout: int, a: seq<Op>, b: seq<Op>)
    ensures Play(h, timeout, a + b) == Play(Play(h, timeout, a), timeout, b)
    decreases a
  {
    if a == [] {
      assert a + b == b;
    } else {
      assert (a + b)[1..] == a[1..] + b;
      PlayConcat(Step(h, timeout, a[0]), timeout, a[1..], b);
    }
  }

  lemma StepKeepsConsistency(h: History, timeout: int, op: Op)
    requires Consistent(h.goals)
    ensures Consistent(Step(h, timeout, op).goals)
  {
    StepKeepsAccounts(h.(accepted := Ids(h.goals), expired := []), timeout, op);
  }

  /** An update that ends a goal records when. */
  lemma UpdateRecordsEnd(h: History, timeout: int, id: Uuid, event: Event, n: nat)
    requires Consistent(h.goals) && Tracked(h.goals, id) && !HasEnded(h.goals, id)
    requires HasEnded(Step(h, timeout, Update(id, event, n)).goals, id)
    ensures EndedAt(Step(h, timeout, Update(id, event, n)).goals, id, n)
  {
    var k, gs := Find(h.goals, id), Step(h, timeout, Update(id, event, n)).goals;
    assert h.goals[k].Valid() && !IsTerminal(h.goals[k].state);
    var i :| 0 <= i < |gs| && gs[i].info.id == id && IsTerminal(gs[i].state);
    assert i == k && gs[k].terminalStamp == n;
  }

  /** A goal that has ended keeps the time at which it did, until an expiry. */
  lemma StepKeepsEnd(h: History, timeout: int, op: Op, id: Uuid, n: int)
    requires EndedAt(h.goals, id, n) && !op.ExpireAt?
    ensures EndedAt(Step(h, timeout, op).goals, id, n)
  {
    var gs := Step(h, timeout, op).goals;
    var i :| 0 <= i < |h.goals| && h.goals[i].info.id == id
             && IsTerminal(h.goals[i].state) && h.goals[i].terminalStamp == n;
    assert gs[i] == h.goals[i];
  }

  lemma {:induction false} PlayKeepsEnd(h: History, timeout: int, ops: seq<Op>, id: Uuid, n: int)
    requires Consistent(h.goals) && EndedAt(h.goals, id, n)
    requires forall i :: 0 <= i < |ops| ==> !ops[i].ExpireAt?
    ensures Consistent(Play(h, timeout, ops).goals) && EndedAt(Play(h, timeout, ops).goals, id, n)
    decreases ops
  {
    if ops == [] {
    } else {
      StepKeepsConsistency(h, timeout, ops[0]);
      StepKeepsEnd(h, timeout, ops[0], id, n);
      PlayKeepsEnd(Step(h, timeout, ops[0]), timeout, ops[1..], id, n);
    }
  }

  lemma ExpiryOfEnded(gs: seq<Goal>, id: Uuid, n: int, m: int, timeout: int)
    requires Consistent(gs) && EndedAt(gs, id, n)
    ensures Tracked(Expire(gs, m, timeout, 0).kept, id) <==> timeout < 0 || (timeout > 0 && m - n <= timeout)
  {
    var i :| 0 <= i < |gs| && gs[i].info.id == id && IsTerminal(gs[i].state) && gs[i].terminalStamp == n;
    assert gs[i] in gs;
    ExpireRemovesExactly(gs, m, timeout, gs[i]);
    ExpiredAreGone(gs, m, timeout, 0, gs[i]);
  }

  /** Main result: let an update at time `n` end a goal, let accepts and updates of any goals follow,
      and then an expiry at time `m`.  The goal is still tracked exactly if the timeout is negative,
      or positive and not less than the time from `n` to `m`. */
  lemma TrackedAfterEndIff(h: History, timeout: int, id: Uuid, event: Event, n: nat, between: seq<Op>, m: nat)
    requires Consistent(h.goals) && Tracked(h.goals, id) && !HasEnded(h.goals, id)
    requires HasEnded(Step(h, timeout, Update(id, event, n)).goals, id)
    requires forall i :: 0 <= i < |between| ==> !between[i].ExpireAt?
    ensures Tracked(Play(h, timeout, [Update(id, event, n)] + between + [ExpireAt(m, 0)]).goals, id) <==>
            timeout < 0 || (timeout > 0 && m - n <= timeout)
  {
    var ended := Step(h, timeout, Update(id, event, n));
    StepKeepsConsistency(h, timeout, Update(id, event, n));
    UpdateRecordsEnd(h, timeout, id, event, n);
    PlayKeepsEnd(ended, timeout, between, id, n);
    var all := [Update(id, event, n)] + between;
    assert all[1..] == between;
    var before := Play(ended, timeout, between);
    assert Play(h, timeout, all) == before;
    PlayConcat(h, timeout, all, [ExpireAt(m, 0)]);
    assert [ExpireAt(m, 0)][1..] == [];
    ExpiryOfEnded(before.goals, id, n, m, timeout);
  }

  // ----- a tracked goal follows its events -----

  /** The goal with the given id is tracked in state `s`. */
  predicate IsAt(gs: seq<Goal>, id: Uuid, s: State) {
    exists i :: 0 <= i < |gs| && gs[i].info.id == id && gs[i].state == s
  }

  function EventOf(id: Uuid, op: Op): seq<Event> {
    if op.Update? && op.id == id then [op.event] else []
  }

  /** The events that a run sends to one goal. */
  function EventsFor(id: Uuid, ops: seq<Op>): seq<Event>
    decreases ops
  {
    if ops == [] then [] else EventOf(id, ops[0]) + EventsFor(id, ops[1..])
  }

  lemma {:induction false} ExpiredGrows(h: History, timeout: int, ops: seq<Op>)
    ensures h.expired <= Play(h, timeout, ops).expired
    decreases ops
  {
    if ops == [] {
    } else {
      ExpiredGrows(Step(h, timeout, ops[0]), timeout, ops[1..]);
    }
  }

  lemma KeptUnlessReported(gs: seq<Goal>, now: int, timeout: int, capacity: nat, g: Goal)
    requires g in gs
    ensures g in Expire(gs, now, timeout, capacity).kept || g.info.id in Ids(Expire(gs, now, timeout, capacity).expired)
  {
    var expired := Expire(gs, now, timeout, capacity).expired;
    ExpireMembers(gs, now, timeout, capacity);
    if j :| 0 <= j < |expired| && expired[j] == g {
      assert Ids(expired)[j] == g.info.id;
    }
  }

  lemma StepFollowsEvents(h: History, timeout: int, op: Op, id: Uuid, s: State)
    requires Consistent(h.goals) && IsAt(h.goals, id, s) && id !in Step(h, timeout, op).expired
    ensures IsAt(Step(h, timeout, op).goals, id, After(s, EventOf(id, op)))
  {
    var gs := Step(h, timeout, op).goals;
    var i :| 0 <= i < |h.goals| && h.goals[i].info.id == id && h.goals[i].state == s;
    match op
    case Accept(_) =>
      assert gs[i] == h.goals[i];
    case Update(other, event, now) =>
      var k := Find(h.goals, other);
      assert After(s, [event]) == Updated(s, event);
      if other == id {
        assert k == i && gs[i] == UpdatedGoal(h.goals[i], event, now);
      } else {
        assert k != i && gs[i] == h.goals[i];
      }
    case ExpireAt(now, capacity) =>
      KeptUnlessReported(h.goals, now, timeout, capacity, h.goals[i]);
      var j :| 0 <= j < |gs| && gs[j] == h.goals[i];
  }

  /** Main result: over every run, as long as no expiry reports a tracked goal, its state is the one
      that the events sent to it lead to, whatever happens to other goals. */
  lemma {:induction false} StateFollowsEvents(h: History, timeout: int, ops: seq<Op>, id: Uuid, s: State)
    requires Consistent(h.goals) && IsAt(h.goals, id, s) && id !in Play(h, timeout, ops).expired
    ensures IsAt(Play(h, timeout, ops).goals, id, After(s, EventsFor(id, ops)))
    decreases ops
  {
    if ops == [] {
    } else {
      var h' := Step(h, timeout, ops[0]);
      ExpiredGrows(h', timeout, ops[1..]);
      StepFollowsEvents(h, timeout, ops[0], id, s);
      StepKeepsConsistency(h, timeout, ops[0]);
      StateFollowsEvents(h', timeout, ops[1..], id, After(s, EventOf(id, ops[0])));
      AfterConcat(s, EventOf(id, ops[0]), EventsFor(id, ops[1..]));
    }
  }

  // ----- the cancel policy -----

  lemma {:induction false} SelectedExactly(gs: seq<Goal>, request: GoalInfo, info: GoalInfo)
    ensures info in Selected(gs, request) <==>
            exists i :: 0 <= i < |gs| && gs[i].info == info && Selects(request, info)
    decreases |gs|
  {
    if gs == [] {
    } else {
      var last := |gs| - 1;
      SelectedExactly(gs[..last], request, info);
      assert gs == gs[..last] + [gs[last]];
      if i :| 0 <= i < |gs| && gs[i].info == info && Selects(request, info) {
        assert i < last ==> gs[..last][i].info == info;
      }
    }
  }

  /** With unique ids the response lists no goal twice. */
  lemma {:induction false} SelectedHasNoDuplicates(gs: seq<Goal>, request: GoalInfo)
    requires UniqueIds(gs)
    ensures forall i, j :: 0 <= i < j < |Selected(gs, request)| ==> Selected(gs, request)[i] != Selected(gs, request)[j]
    decreases |gs|
  {
    if gs == [] {
    } else {
      var last := |gs| - 1;
      SelectedHasNoDuplicates(gs[..last], request);
      SelectedExactly(gs[..last], request, gs[last].info);
      assert forall i :: 0 <= i < last ==> gs[..last][i].info.id != gs[last].info.id;
    }
  }

  /** Main result: a request with both fields set selects the union of what its id alone and its
      timestamp alone would select; a request with neither selects everything. */
  lemma {:induction false} CancelPolicyIsUnion(gs: seq<Goal>, request: GoalInfo, info: GoalInfo)
    requires request.id != ZERO_UUID && !request.stamp.IsZero()
    ensures info in Selected(gs, request) <==>
            || info in Selected(gs, request.(stamp := Stamp(0, 0)))
            || info in Selected(gs, request.(id := ZERO_UUID))
    ensures info in Selected(gs, GoalInfo(ZERO_UUID, Stamp(0, 0))) <==> info in Infos(gs)
  {
    SelectedExactly(gs, request, info);
    SelectedExactly(gs, request.(stamp := Stamp(0, 0)), info);
    SelectedExactly(gs, request.(id := ZERO_UUID), info);
    SelectedExactly(gs, GoalInfo(ZERO_UUID, Stamp(0, 0)), info);
    if info in Infos(gs) {
      var i :| 0 <= i < |gs| && Infos(gs)[i] == info;
      assert gs[i].info == info;
    }
  }

  lemma InfoIsIn(gs: seq<Goal>, info: GoalInfo)
    ensures info in Infos(gs) <==> exists i :: 0 <= i < |gs| && gs[i].info == info
  {
    if i :| 0 <= i < |gs| && Infos(gs)[i] == info {
      assert gs[i].info == info;
    }
    if i :| 0 <= i < |gs| && gs[i].info == info {
      assert Infos(gs)[i] == info;
    }
  }

  /** A request by time alone selects the goals accepted up to that time, to the nanosecond. */
  lemma {:induction false} SelectedByTime(gs: seq<Goal>, stamp: Stamp, info: GoalInfo)
    requires stamp.sec != 0 || stamp.nanosec != 0
    ensures info in Selected(gs, GoalInfo(ZERO_UUID, stamp)) <==>
            && info in Infos(gs)
            && info.stamp.sec * 1000000000 + info.stamp.nanosec <= stamp.sec * 1000000000 + stamp.nanosec
  {
    SelectedExactly(gs, GoalInfo(ZERO_UUID, stamp), info);
    InfoIsIn(gs, info);
  }

  /** With both fields set it is the goal with that id, and the goals accepted up to that time. */
  lemma {:induction false} SelectedByBoth(gs: seq<Goal>, id: Uuid, stamp: Stamp, info: GoalInfo)
    requires id != ZERO_UUID && (stamp.sec != 0 || stamp.nanosec != 0)
    ensures info in Selected(gs, GoalInfo(id, stamp)) <==>
            && info in Infos(gs)
            && (info.id == id
                || info.stamp.sec * 1000000000 + info.stamp.nanosec <= stamp.sec * 1000000000 + stamp.nanosec)
  {
    SelectedExactly(gs, GoalInfo(id, stamp), info);
    InfoIsIn(gs, info);
  }

  lemma {:induction false} SelectedById(gs: seq<Goal>, id: Uuid, info: GoalInfo)
    requires UniqueIds(gs) && id != ZERO_UUID
    ensures info in Selected(gs, GoalInfo(id, Stamp(0, 0))) <==> Find(gs, id) >= 0 && info == gs[Find(gs, id)].info
  {
    var k := Find(gs, id);
    SelectedExactly(gs, GoalInfo(id, Stamp(0, 0)), info);
    if j :| 0 <= j < |gs| && gs[j].info == info && Selects(GoalInfo(id, Stamp(0, 0)), info) {
      assert k >= 0 && gs[j].info.id == gs[k].info.id;
    }
  }

  /** A request by id alone selects at most the one goal with that id, whenever it was accepted. */
  lemma {:induction false} CancelByIdSelectsOne(gs: seq<Goal>, id: Uuid)
    requires UniqueIds(gs) && id != ZERO_UUID
    ensures var r := Selected(gs, GoalInfo(id, Stamp(0, 0)));
            if Find(gs, id) < 0 then r == [] else r == [gs[Find(gs, id)].info]
  {
    var r, k := Selected(gs, GoalInfo(id, Stamp(0, 0))), Find(gs, id);
    SelectedHasNoDuplicates(gs, GoalInfo(id, Stamp(0, 0)));
    if r != [] {
      SelectedById(gs, id, r[0]);
      if |r| > 1 {
        SelectedById(gs, id, r[1]);
        assert false;
      }
    } else if k >= 0 {
      SelectedById(gs, id, gs[k].info);
      assert false;
    }
  }
}
