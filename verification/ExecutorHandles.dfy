/** The handle array of the rclc executor: src/rclc/executor.h and src/rclc/executor_handle.h, with
    the wait set of src/rcl/wait.h that the executor fills from it.

    Entities (subscriptions, timers, ...) are identified by the address stored in the handle, here
    an integer.
 */
module ExecutorHandles {

  import opened Common

  datatype HandleType =
    | Subscription | SubscriptionWithContext
    | Timer
    | Client | ClientWithRequestId
    | Service | ServiceWithRequestId | ServiceWithContext
    | ActionClient | ActionServer
    | GuardCondition
    | NoType

  datatype Invocation = OnNewData | Always

  /** What the counters count. */
  datatype Kind = Subscriptions | Timers | Clients | Services | ActionClients | ActionServers | GuardConditions | NoKind

  function KindOf(t: HandleType): Kind {
    match t
    case Subscription | SubscriptionWithContext => Subscriptions
    case Timer => Timers
    case Client | ClientWithRequestId => Clients
    case Service | ServiceWithRequestId | ServiceWithContext => Services
    case ActionClient => ActionClients
    case ActionServer => ActionServers
    case GuardCondition => GuardConditions
    case NoType => NoKind
  }

  datatype Handle = Handle(
    typ: HandleType,
    invocation: Invocation,
    entity: int,
    // Index of the handle's entry in the wait set of its kind.
    waitIndex: nat,
    initialized: bool,
    dataAvailable: bool)
  {
    function Kind(): Kind { KindOf(typ) }
  }

  /** rclc_executor_handle_init: an unused handle.  `max` is never a valid wait-set index. */
  function Unused(max: nat): Handle {
    Handle(NoType, OnNewData, 0, max, false, false)
  }

  function NewHandle(typ: HandleType, entity: int, invocation: Invocation, max: nat): Handle {
    Handle(typ, invocation, entity, max, true, false)
  }

  datatype Counters = Counters(
    subscriptions: nat, timers: nat, clients: nat, services: nat,
    actionClients: nat, actionServers: nat, guardConditions: nat)
  {
    function Of(k: Kind): nat {
      match k
      case Subscriptions => subscriptions
      case Timers => timers
      case Clients => clients
      case Services => services
      case ActionClients => actionClients
      case ActionServers => actionServers
      case GuardConditions => guardConditions
      case NoKind => 0
    }

    /** These counters with the one for `k` set to `n`. */
    function With(k: Kind, n: nat): (c: Counters)
      ensures forall j :: c.Of(j) == if j == k && k != NoKind then n else Of(j)
    {
      match k
      case Subscriptions => this.(subscriptions := n)
      case Timers => this.(timers := n)
      case Clients => this.(clients := n)
      case Services => this.(services := n)
      case ActionClients => this.(actionClients := n)
      case ActionServers => this.(actionServers := n)
      case GuardConditions => this.(guardConditions := n)
      case NoKind => this
    }
  }

  const ZERO := Counters(0, 0, 0, 0, 0, 0, 0)

  /** The number of handles of kind `k` in `hs`. */
  function Count(k: Kind, hs: seq<Handle>): nat
    decreases |hs|
  {
    if hs == [] then 0 else
      Count(k, hs[..|hs| - 1]) + if hs[|hs| - 1].Kind() == k then 1 else 0
  }

  /** The entities of kind `k` in `hs`, in order. */
  function Entities(k: Kind, hs: seq<Handle>): (es: seq<int>)
    ensures |es| == Count(k, hs)
    decreases |hs|
  {
    if hs == [] then [] else
      Entities(k, hs[..|hs| - 1]) + if hs[|hs| - 1].Kind() == k then [hs[|hs| - 1].entity] else []
  }

  predicate Live(h: Handle) {
    h.initialized && h.typ != NoType
  }

  function Dropped(hs: seq<Handle>, i: nat): seq<Handle>
    requires i < |hs|
  {
    hs[..i] + hs[i + 1..]
  }

  /** The handle for entity `e` of kind `k` comes first at index `i`. */
  predicate FirstAt(hs: seq<Handle>, k: Kind, e: int, i: nat) {
    && i < |hs| && hs[i].Kind() == k && hs[i].entity == e
    && forall j :: 0 <= j < i ==> !(hs[j].Kind() == k && hs[j].entity == e)
  }

  predicate Holds(hs: seq<Handle>, k: Kind, e: int) {
    exists i :: 0 <= i < |hs| && hs[i].Kind() == k && hs[i].entity == e
  }

  /** Index of the first handle for entity `e` of kind `k`, or -1. */
  function FindFirst(hs: seq<Handle>, k: Kind, e: int): (i: int)
    ensures -1 <= i < |hs|
    ensures i < 0 <==> !Holds(hs, k, e)
    ensures i >= 0 ==> FirstAt(hs, k, e, i)
    decreases |hs|
  {
    if hs == [] then -1 else
      var last := |hs| - 1;
      var i := FindFirst(hs[..last], k, e);
      if i >= 0 then i
      else if hs[last].Kind() == k && hs[last].entity == e then last
      else -1
  }

  lemma {:induction false} CountConcat(k: Kind, a: seq<Handle>, b: seq<Handle>)
    ensures Count(k, a + b) == Count(k, a) + Count(k, b)
    decreases |b|
  {
    if b == [] {
      assert a + b == a;
    } else {
      assert (a + b)[..|a + b| - 1] == a + b[..|b| - 1];
      CountConcat(k, a, b[..|b| - 1]);
    }
  }

  lemma CountOne(k: Kind, h: Handle)
    ensures Count(k, [h]) == if h.Kind() == k then 1 else 0
  {
    assert [h][..0] == [];
  }

  lemma CountDropped(k: Kind, hs: seq<Handle>, i: nat)
    requires i < |hs|
    ensures Count(k, hs) == Count(k, Dropped(hs, i)) + if hs[i].Kind() == k then 1 else 0
  {
    assert hs == (hs[..i] + [hs[i]]) + hs[i + 1..];
    CountConcat(k, hs[..i] + [hs[i]], hs[i + 1..]);
    CountConcat(k, hs[..i], [hs[i]]);
    CountConcat(k, hs[..i], hs[i + 1..]);
    CountOne(k, hs[i]);
  }

  lemma {:induction false} CountBound(k: Kind, hs: seq<Handle>, i: nat)
    requires i <= |hs|
    ensures Count(k, hs[..i]) <= Count(k, hs) <= |hs|
    decreases |hs|
  {
    if i < |hs| {
      assert hs[..i] == hs[..|hs| - 1][..i];
      CountBound(k, hs[..|hs| - 1], i);
    } else if hs != [] {
      assert hs[..i] == hs;
      CountBound(k, hs[..|hs| - 1], |hs| - 1);
    }
  }

  /** The number of handles with one of the given types. */
  function CountTypes(types: set<HandleType>, hs: seq<Handle>): nat
    decreases |hs|
  {
    if hs == [] then 0 else
      CountTypes(types, hs[..|hs| - 1]) + if hs[|hs| - 1].typ in types then 1 else 0
  }

  lemma {:induction false} CountIsByTypes(k: Kind, types: set<HandleType>, hs: seq<Handle>)
    requires forall t :: t in types <==> KindOf(t) == k
    ensures Count(k, hs) == CountTypes(types, hs)
    decreases |hs|
  {
    if hs == [] {
    } else {
      CountIsByTypes(k, types, hs[..|hs| - 1]);
    }
  }

  /** Counters that are right for each kind count the variants of a handle together. */
  lemma CountersByType(c: Counters, hs: seq<Handle>)
    requires forall k :: k != NoKind ==> c.Of(k) == Count(k, hs)
    ensures c.subscriptions == CountTypes({Subscription, SubscriptionWithContext}, hs)
    ensures c.timers == CountTypes({Timer}, hs)
    ensures c.clients == CountTypes({Client, ClientWithRequestId}, hs)
    ensures c.services == CountTypes({Service, ServiceWithRequestId, ServiceWithContext}, hs)
    ensures c.actionClients == CountTypes({ActionClient}, hs)
    ensures c.actionServers == CountTypes({ActionServer}, hs)
    ensures c.guardConditions == CountTypes({GuardCondition}, hs)
  {
    CountIsByTypes(Subscriptions, {Subscription, SubscriptionWithContext}, hs);
    CountIsByTypes(Timers, {Timer}, hs);
    CountIsByTypes(Clients, {Client, ClientWithRequestId}, hs);
    CountIsByTypes(Services, {Service, ServiceWithRequestId, ServiceWithContext}, hs);
    CountIsByTypes(ActionClients, {ActionClient}, hs);
    CountIsByTypes(ActionServers, {ActionServer}, hs);
    CountIsByTypes(GuardConditions, {GuardCondition}, hs);
    assert c.Of(Subscriptions) == c.subscriptions && c.Of(Timers) == c.timers && c.Of(Clients) == c.clients;
    assert c.Of(Services) == c.services && c.Of(ActionClients) == c.actionClients;
    assert c.Of(ActionServers) == c.actionServers && c.Of(GuardConditions) == c.guardConditions;
  }

  lemma FirstIsUnique(hs: seq<Handle>, k: Kind, e: int, i: nat)
    requires FirstAt(hs, k, e, i)
    ensures FindFirst(hs, k, e) == i
  {
  }

  lemma OneLess(hs: seq<Handle>, i: nat, k: Kind)
    requires i < |hs| && hs[i].Kind() == k
    ensures forall j :: Count(j, hs) == Count(j, Dropped(hs, i)) + if j == k then 1 else 0
  {
    forall j ensures Count(j, hs) == Count(j, Dropped(hs, i)) + if j == k then 1 else 0 {
      CountDropped(j, hs, i);
    }
  }

  /** The wait-set entry of a handle: how many handles of its kind come before it. */
  lemma {:induction false} EntityAtRank(hs: seq<Handle>, i: nat)
    requires i < |hs|
    ensures var k := hs[i].Kind();
            Count(k, hs[..i]) < Count(k, hs) && Entities(k, hs)[Count(k, hs[..i])] == hs[i].entity
    decreases |hs|
  {
    var last := |hs| - 1;
    if i < last {
      assert hs[..last][..i] == hs[..i];
      EntityAtRank(hs[..last], i);
    }
  }

  // ----- the wait set -----

  datatype Slot = Empty | Full(entity: int)

  /** The next empty spot, or the size of a full set. */
  function FirstEmpty(ss: seq<Slot>): (i: nat)
    ensures i <= |ss|
    ensures forall j :: 0 <= j < i ==> ss[j] != Empty
    ensures i < |ss| ==> ss[i] == Empty
    decreases |ss|
  {
    if ss == [] then 0 else
      var i := FirstEmpty(ss[..|ss| - 1]);
      if i < |ss| - 1 || ss[|ss| - 1] == Empty then i else |ss|
  }

  class WaitSet {
    var slots: map<Kind, seq<Slot>>

    ghost predicate Valid()
      reads this
    {
      forall k :: k in slots
    }

    constructor ()
      ensures Valid() && forall k :: slots[k] == []
    {
      slots := map k: Kind | ZERO.Of(k) == 0 :: [];
    }

    /** rcl_wait_set_resize: every entry becomes empty. */
    method Resize(info: Counters)
      modifies this
      ensures Valid()
      ensures forall k :: slots[k] == seq(info.Of(k), _ => Empty)
    {
      slots := map k: Kind | info.Of(k) >= 0 :: seq(info.Of(k), _ => Empty);
    }

    /** rcl_wait_set_add_*: stores the entity in the next empty spot; false for
        RCL_RET_WAIT_SET_FULL. */
    method Add(k: Kind, entity: int) returns (ok: bool, i: nat)
      requires Valid()
      modifies this
      ensures Valid()
      ensures i == FirstEmpty(old(slots)[k])
      ensures ok <==> i < |old(slots)[k]|
      ensures slots == if ok then old(slots)[k := old(slots)[k][i := Full(entity)]] else old(slots)
    {
      i := 0;
      while i < |slots[k]| && slots[k][i] != Empty
        invariant i <= FirstEmpty(slots[k])
      {
        i := i + 1;
      }
      ok := i < |slots[k]|;
      if ok {
        slots := slots[k := slots[k][i := Full(entity)]];
      }
    }

    /** rcl_wait: an entry is either left untouched or emptied; what remains is ready.  Readiness
        is decided by the middleware. */
    method Wait(ready: (Kind, int) -> bool)
      requires Valid()
      modifies this
      ensures Valid()
      ensures forall k :: slots[k] == Pruned(old(slots)[k], k, ready)
    {
      slots := map k: Kind | k in slots :: Pruned(slots[k], k, ready);
    }
  }

  function Pruned(ss: seq<Slot>, k: Kind, ready: (Kind, int) -> bool): (r: seq<Slot>)
    ensures |r| == |ss|
    ensures forall i :: 0 <= i < |r| ==> r[i] == if ss[i].Full? && ready(k, ss[i].entity) then ss[i] else Empty
  {
    seq(|ss|, i requires 0 <= i < |ss| => if ss[i].Full? && ready(k, ss[i].entity) then ss[i] else Empty)
  }

  /** The wait-set entries for kind `k` after the first `i` handles of `hs` have been added to a set
      with room for all of that kind. */
  function FilledTo(k: Kind, hs: seq<Handle>, i: nat): (r: seq<Slot>)
    requires i <= |hs|
    ensures |r| == Count(k, hs) && |Entities(k, hs[..i])| <= |r|
    ensures forall j :: 0 <= j < |r| ==>
              r[j] == if j < |Entities(k, hs[..i])| then Full(Entities(k, hs[..i])[j]) else Empty
  {
    CountBound(k, hs, i);
    var es := Entities(k, hs[..i]);
    seq(Count(k, hs), j requires 0 <= j < Count(k, hs) => if j < |es| then Full(es[j]) else Empty)
  }

  /** Adding the next handle fills the next empty entry of its kind, and there is one. */
  lemma PrepareStep(hs: seq<Handle>, i: nat)
    requires i < |hs|
    ensures var k, at := hs[i].Kind(), Rank(hs, i);
            && at == FirstEmpty(FilledTo(k, hs, i)) && at < |FilledTo(k, hs, i)|
            && FilledTo(k, hs, i + 1) == FilledTo(k, hs, i)[at := Full(hs[i].entity)]
            && (forall k' :: k' != k ==> FilledTo(k', hs, i + 1) == FilledTo(k', hs, i))
  {
    assert hs[..i + 1][..i] == hs[..i] && hs[..i + 1][i] == hs[i];
    EntityAtRank(hs, i);
    var k := hs[i].Kind();
    assert FilledTo(k, hs, i)[Count(k, hs[..i])] == Empty;
  }

  // ----- the executor's handle array -----

  datatype Ret = Ok | Error

  class Executor {
    const maxHandles: nat
    const handles: array<Handle>
    var index: nat
    var info: Counters

    ghost function View(): seq<Handle>
      requires index <= handles.Length
      reads this, handles
    {
      handles[..index]
    }

    /** The handles in [0, index) are live, the rest are not, and every counter counts. */
    ghost predicate Valid()
      reads this, handles
    {
      && handles.Length == maxHandles
      && index <= maxHandles
      && (forall i :: 0 <= i < index ==> Live(handles[i]))
      && (forall i :: index <= i < maxHandles ==> !handles[i].initialized)
      && (forall k :: k != NoKind ==> info.Of(k) == Count(k, View()))
    }

    constructor (maxHandles: nat)
      ensures Valid() && this.maxHandles == maxHandles
      ensures fresh(handles) && View() == []
    {
      this.maxHandles := maxHandles;
      handles := new Handle[maxHandles](_ => Unused(maxHandles));
      index, info := 0, ZERO;
    }

    /** rclc_executor_add_*; an error if the array is full. */
    method Add(typ: HandleType, entity: int, invocation: Invocation) returns (r: Ret)
      requires Valid() && typ != NoType
      modifies this, handles
      ensures Valid()
      ensures r == Error <==> |old(View())| == maxHandles
      ensures r == Error ==> View() == old(View())
      ensures r == Ok ==> View() == old(View()) + [NewHandle(typ, entity, invocation, maxHandles)]
    {
      if index >= maxHandles {
        return Error;
      }
      ghost var before := View();
      var h := NewHandle(typ, entity, invocation, maxHandles);
      handles[index] := h;
      index := index + 1;
      info := info.With(KindOf(typ), info.Of(KindOf(typ)) + 1);
      assert View() == before + [h];
      forall k ensures Count(k, View()) == Count(k, before) + if h.Kind() == k then 1 else 0 {
        CountConcat(k, before, [h]);
        CountOne(k, h);
      }
      return Ok;
    }

    /** rclc_executor_remove_*; an error if the array is empty or does not hold the entity.  The
        handles behind the removed one move up, so the others keep their order. */
    method Remove(k: Kind, entity: int) returns (r: Ret)
      requires Valid() && k != NoKind
      modifies this, handles
      ensures Valid()
      ensures r == Error <==> !Holds(old(View()), k, entity)
      ensures r == Error ==> View() == old(View())
      ensures r == Ok ==> View() == Dropped(old(View()), FindFirst(old(View()), k, entity))
    {
      var i := FindHandle(k, entity);
      if i < 0 {
        return Error;
      }
      OneLess(View(), i, k);
      ShiftDown(i);
      info := info.With(k, info.Of(k) - 1);
      return Ok;
    }

    /** The index of the first handle for the entity, or -1. */
    method FindHandle(k: Kind, entity: int) returns (i: int)
      requires index <= handles.Length
      ensures i == FindFirst(View(), k, entity)
    {
      i := 0;
      while i < index && !(handles[i].Kind() == k && handles[i].entity == entity)
        invariant 0 <= i <= index
        invariant forall j :: 0 <= j < i ==> !(handles[j].Kind() == k && handles[j].entity == entity)
      {
        i := i + 1;
      }
      if i < index {
        FirstIsUnique(View(), k, entity, i);
      } else {
        i := -1;
      }
    }

    /** Moves the handles behind position `i` up by one and clears the last. */
    method ShiftDown(i: nat)
      requires handles.Length == maxHandles && i < index <= maxHandles
      requires forall j :: 0 <= j < index ==> Live(handles[j])
      requires forall j :: index <= j < maxHandles ==> !handles[j].initialized
      modifies `index, handles
      ensures index == old(index) - 1 && View() == Dropped(old(View()), i)
      ensures forall j :: 0 <= j < index ==> Live(handles[j])
      ensures forall j :: index <= j < maxHandles ==> !handles[j].initialized
    {
      ghost var before := handles[..];
      for j := i to index - 1
        invariant index == old(index) && |before| == maxHandles
        invariant forall p :: 0 <= p < i || j <= p < maxHandles ==> handles[p] == before[p]
        invariant forall p :: i <= p < j ==> handles[p] == before[p + 1]
      {
        handles[j] := handles[j + 1];
      }
      index := index - 1;
      handles[index] := handles[index].(waitIndex := maxHandles, initialized := false);
      assert View() == Dropped(before[..index + 1], i);
    }

    /** The wait set of a spin: sizes it by the counters, adds every handle to it, and
        notes the index of its entry.  No addition can find the set full, because the counters
        count. */
    method Prepare(ws: WaitSet)
      requires Valid()
      modifies handles, ws
      ensures Valid() && ws.Valid() && Prepared(ws)
      ensures |View()| == |old(View())|
      ensures forall i :: 0 <= i < index ==> View()[i] == Ranked(old(View()), i)
    {
      ghost var hs := View();
      ws.Resize(info);
      assert hs[..0] == [];
      assert forall k :: k != NoKind ==> ws.slots[k] == FilledTo(k, hs, 0);
      ghost var ranks := seq(|hs|, i requires 0 <= i < |hs| => Rank(hs, i));
      FillWaitSet(handles, index, ws, hs, ranks);
      SameShape(hs, View());
      SameFilled(hs, View());
    }

    /** The wait set holds exactly the handles' entities, and every handle knows its entry. */
    ghost predicate Prepared(ws: WaitSet)
      requires index <= handles.Length && ws.Valid()
      reads this, handles, ws
    {
      && (forall k :: k != NoKind ==> ws.slots[k] == FilledTo(k, View(), index))
      && (forall i :: 0 <= i < index ==> View()[i] == Ranked(View(), i))
    }

    /** After the wait, the entry that a handle remembers says whether its own entity is ready. */
    method CheckForNewData(ws: WaitSet, ready: (Kind, int) -> bool)
      requires Valid() && ws.Valid() && Prepared(ws)
      modifies handles, ws
      ensures Valid() && |View()| == |old(View())|
      ensures forall i :: 0 <= i < index ==> View()[i] == Flagged(old(View())[i], ready)
    {
      ghost var hs := View();
      ws.Wait(ready);
      EntriesTell(hs, ws.slots, ready);
      assert forall i :: 0 <= i < index ==> handles[i] == hs[i];
      ReadWaitSet(handles, index, ws, ready);
      SameShape(hs, View());
    }
  }

  /** The wait-set index of the i-th handle: how many handles of its kind come before it. */
  function Rank(hs: seq<Handle>, i: nat): nat
    requires i < |hs|
  {
    Count(hs[i].Kind(), hs[..i])
  }

  function Ranked(hs: seq<Handle>, i: nat): Handle
    requires i < |hs|
  {
    hs[i].(waitIndex := Rank(hs, i))
  }

  function Flagged(h: Handle, ready: (Kind, int) -> bool): Handle {
    h.(dataAvailable := ready(h.Kind(), h.entity))
  }

  /** The entry of handle `h` tells whether its entity is ready. */
  predicate Tells(slots: map<Kind, seq<Slot>>, h: Handle, ready: (Kind, int) -> bool) {
    && h.Kind() in slots && h.waitIndex < |slots[h.Kind()]|
    && (slots[h.Kind()][h.waitIndex] != Empty <==> ready(h.Kind(), h.entity))
  }

  /** The loop of Prepare; `hs` are the handles and `ranks` their wait-set indices. */
  method FillWaitSet(handles: array<Handle>, index: nat, ws: WaitSet, ghost hs: seq<Handle>, ghost ranks: seq<nat>)
    requires index <= handles.Length && ws.Valid()
    requires hs == handles[..index] && |ranks| == index
    requires forall i {:trigger Rank(hs, i)} :: 0 <= i < index ==> ranks[i] == Rank(hs, i)
    requires forall i :: 0 <= i < index ==> handles[i].typ != NoType
    requires forall k :: k != NoKind ==> ws.slots[k] == FilledTo(k, hs, 0)
    modifies handles, ws
    ensures ws.Valid()
    ensures forall k :: k != NoKind ==> ws.slots[k] == FilledTo(k, hs, index)
    ensures forall i :: 0 <= i < index ==> handles[i] == hs[i].(waitIndex := ranks[i])
    ensures forall i :: index <= i < handles.Length ==> handles[i] == old(handles[i])
  {
    for i := 0 to index
      invariant ws.Valid()
      invariant forall k :: k != NoKind ==> ws.slots[k] == FilledTo(k, hs, i)
      invariant forall j :: 0 <= j < i ==> handles[j] == hs[j].(waitIndex := ranks[j])
      invariant forall j :: i <= j < handles.Length ==> handles[j] == old(handles[j])
    {
      PrepareStep(hs, i);
      var ok, at := ws.Add(handles[i].Kind(), handles[i].entity);
      handles[i] := handles[i].(waitIndex := at);
    }
  }

  method ReadWaitSet(handles: array<Handle>, index: nat, ws: WaitSet, ready: (Kind, int) -> bool)
    requires index <= handles.Length
    requires forall i :: 0 <= i < index ==> Tells(ws.slots, handles[i], ready)
    modifies handles
    ensures forall i :: 0 <= i < index ==> handles[i] == Flagged(old(handles[i]), ready)
    ensures forall i :: index <= i < handles.Length ==> handles[i] == old(handles[i])
  {
    for i := 0 to index
      invariant forall j :: 0 <= j < i ==> handles[j] == Flagged(old(handles[j]), ready)
      invariant forall j :: i <= j < handles.Length ==> handles[j] == old(handles[j])
    {
      var h := handles[i];
      handles[i] := h.(dataAvailable := ws.slots[h.Kind()][h.waitIndex] != Empty);
    }
  }

  /** Pruning a prepared wait set leaves every handle an entry that tells about its own entity. */
  lemma EntriesTell(hs: seq<Handle>, slots: map<Kind, seq<Slot>>, ready: (Kind, int) -> bool)
    requires forall i :: 0 <= i < |hs| ==> hs[i].typ != NoType && hs[i] == Ranked(hs, i)
    requires forall k :: k != NoKind ==> k in slots && slots[k] == Pruned(FilledTo(k, hs, |hs|), k, ready)
    ensures forall i :: 0 <= i < |hs| ==> Tells(slots, hs[i], ready)
  {
    forall i | 0 <= i < |hs| ensures Tells(slots, hs[i], ready) {
      EntityAtRank(hs, i);
      assert hs[..|hs|] == hs;
      assert FilledTo(hs[i].Kind(), hs, |hs|)[hs[i].waitIndex] == Full(hs[i].entity);
    }
  }

  lemma SameFilled(a: seq<Handle>, b: seq<Handle>)
    requires |a| == |b|
    requires forall i :: 0 <= i < |a| ==> b[i].typ == a[i].typ && b[i].entity == a[i].entity
    ensures forall k :: FilledTo(k, a, |a|) == FilledTo(k, b, |b|)
  {
    SameShape(a, b);
    assert a[..|a|] == a && b[..|b|] == b;
  }

  /** Counting and listing do not look at the wait-set index. */
  lemma {:induction false} SameShape(a: seq<Handle>, b: seq<Handle>)
    requires |a| == |b|
    requires forall i :: 0 <= i < |a| ==> b[i].typ == a[i].typ && b[i].entity == a[i].entity
    ensures forall k :: Count(k, a) == Count(k, b) && Entities(k, a) == Entities(k, b)
    ensures forall k, i :: 0 <= i <= |a| ==> Count(k, a[..i]) == Count(k, b[..i])
    decreases |a|
  {
    if a == [] {
    } else {
      var last := |a| - 1;
      SameShape(a[..last], b[..last]);
      assert a[last].Kind() == b[last].Kind() && a[last].entity == b[last].entity;
      forall k ensures Count(k, a) == Count(k, b) && Entities(k, a) == Entities(k, b) {
        assert Count(k, a[..last]) == Count(k, b[..last]) && Entities(k, a[..last]) == Entities(k, b[..last]);
      }
      forall k, i | 0 <= i <= |a| ensures Count(k, a[..i]) == Count(k, b[..i]) {
        if i <= last {
          assert a[..i] == a[..last][..i] && b[..i] == b[..last][..i];
        } else {
          assert a[..i] == a && b[..i] == b;
        }
      }
    }
  }

  // ----- runs of additions and removals -----

  datatype Op = AddOp(typ: HandleType, entity: int, invocation: Invocation) | RemoveOp(kind: Kind, entity: int)

  /** The live handles, every handle ever added, and every handle ever removed, in order. */
  datatype History = History(live: seq<Handle>, added: seq<Handle>, removed: seq<Handle>)

  const NOTHING := History([], [], [])

  function Step(h: History, max: nat, op: Op): History {
    match op
    case AddOp(typ, entity, invocation) =>
      if typ == NoType || |h.live| == max then h else
        var n := NewHandle(typ, entity, invocation, max);
        h.(live := h.live + [n], added := h.added + [n])
    case RemoveOp(k, entity) =>
      var i := FindFirst(h.live, k, entity);
      if k == NoKind || i < 0 then h else
        h.(live := Dropped(h.live, i), removed := h.removed + [h.live[i]])
  }

  function Play(h: History, max: nat, ops: seq<Op>): History
    decreases ops
  {
    if ops == [] then h else Play(Step(h, max, ops[0]), max, ops[1..])
  }

  /** What holds throughout a run: the array is not overfull; its handles are among the added ones
      in the order of addition; and every added handle is either live or was removed. */
  ghost predicate Accounted(h: History, max: nat) {
    && |h.live| <= max
    && (forall i :: 0 <= i < |h.live| ==> Live(h.live[i]))
    && Subsequence(h.live, h.added)
    && multiset(h.added) == multiset(h.live) + multiset(h.removed)
    && (forall k :: Count(k, h.added) == Count(k, h.live) + Count(k, h.removed))
  }

  lemma AddKeepsAccounts(h: History, max: nat, n: Handle)
    requires Accounted(h, max) && |h.live| < max && Live(n)
    ensures Accounted(h.(live := h.live + [n], added := h.added + [n]), max)
  {
    var h' := h.(live := h.live + [n], added := h.added + [n]);
    assert h'.live[..|h.live|] == h.live && h'.added[..|h.added|] == h.added;
    forall k ensures Count(k, h'.added) == Count(k, h'.live) + Count(k, h'.removed) {
      CountConcat(k, h.live, [n]);
      CountConcat(k, h.added, [n]);
    }
  }

  lemma MultisetOfDropped(hs: seq<Handle>, i: nat)
    requires i < |hs|
    ensures multiset(hs) == multiset(Dropped(hs, i)) + multiset{hs[i]}
  {
    assert hs == hs[..i] + [hs[i]] + hs[i + 1..];
  }

  lemma CountsOfDropped(live: seq<Handle>, removed: seq<Handle>, i: nat, k: Kind)
    requires i < |live|
    ensures Count(k, live) + Count(k, removed) == Count(k, Dropped(live, i)) + Count(k, removed + [live[i]])
  {
    CountDropped(k, live, i);
    CountConcat(k, removed, [live[i]]);
    CountOne(k, live[i]);
  }

  lemma RemoveKeepsAccounts(h: History, max: nat, i: nat)
    requires Accounted(h, max) && i < |h.live|
    ensures Accounted(h.(live := Dropped(h.live, i), removed := h.removed + [h.live[i]]), max)
  {
    SubsequenceOfDropped(h.live, h.added, i);
    MultisetOfDropped(h.live, i);
    forall k ensures Count(k, h.added) == Count(k, Dropped(h.live, i)) + Count(k, h.removed + [h.live[i]]) {
      CountsOfDropped(h.live, h.removed, i, k);
    }
  }

  lemma StepKeepsAccounts(h: History, max: nat, op: Op)
    requires Accounted(h, max)
    ensures Accounted(Step(h, max, op), max)
  {
    match op
    case AddOp(typ, entity, invocation) =>
      if typ != NoType && |h.live| < max {
        AddKeepsAccounts(h, max, NewHandle(typ, entity, invocation, max));
      }
    case RemoveOp(k, entity) =>
      var i := FindFirst(h.live, k, entity);
      if k != NoKind && i >= 0 {
        RemoveKeepsAccounts(h, max, i);
      }
  }

  /** Main result: over every run of additions and removals of a new executor, the array holds
      exactly the handles added and not removed, in the order they were added, never more than
      fit, and the counts of each kind (variants included) balance. */
  lemma RunsKeepAccounts(max: nat, ops: seq<Op>)
    ensures Accounted(Play(NOTHING, max, ops), max)
  {
    PlayKeepsAccounts(NOTHING, max, ops);
  }

  lemma {:induction false} PlayKeepsAccounts(h: History, max: nat, ops: seq<Op>)
    requires Accounted(h, max)
    ensures Accounted(Play(h, max, ops), max)
    decreases ops
  {
    if ops == [] {
    } else {
      StepKeepsAccounts(h, max, ops[0]);
      PlayKeepsAccounts(Step(h, max, ops[0]), max, ops[1..]);
    }
  }

  /** Removing an entity undoes adding it, if the array had room and did not hold it before. */
  lemma RemoveUndoesAdd(h: History, max: nat, typ: HandleType, entity: int, invocation: Invocation)
    requires typ != NoType && |h.live| < max && !Holds(h.live, KindOf(typ), entity)
    ensures Step(Step(h, max, AddOp(typ, entity, invocation)), max, RemoveOp(KindOf(typ), entity)).live == h.live
  {
    var n := NewHandle(typ, entity, invocation, max);
    var after := h.live + [n];
    assert after[|h.live|] == n;
    assert forall j :: 0 <= j < |h.live| ==> after[j] == h.live[j];
    assert FindFirst(after, KindOf(typ), entity) == |h.live|;
  }
}
