/** The goal-handle pool of rclc: src/rclc/action_goal_handle.h, with the deferred release of
    src/rclc/action_server.h.

    Handles live in a fixed block of memory and are threaded through their `next` fields into a
    free list and a used list.  The ghost sequences of a pool are what those two lists hold.
 */
module GoalHandlePool {
  import opened GoalStates

  class GoalHandle {
    var next: GoalHandle?
    var status: State
    // The client has asked for the result of this goal.
    var resultRequested: bool
    // A result has been sent; the handle is to be released on the next executor spin.
    var ended: bool

    constructor ()
      ensures next == null && !ended && !resultRequested && status == Unknown
    {
      next, status, resultRequested, ended := null, Unknown, false, false;
    }
  }

  datatype SendResult = Sent | WaitResultRequest | NotTerminal

  // ----- sequences of handles -----

  /** The set of handles in `s`. */
  ghost function Elements(s: seq<GoalHandle>): set<GoalHandle>
    decreases |s|
  {
    if s == [] then {} else Elements(s[..|s| - 1]) + {s[|s| - 1]}
  }

  ghost predicate NoRepeats(s: seq<GoalHandle>)
    decreases |s|
  {
    s != [] ==> s[|s| - 1] !in Elements(s[..|s| - 1]) && NoRepeats(s[..|s| - 1])
  }

  /** Every node is in exactly one of the lists `f` and `u`, and there exactly once. */
  ghost predicate Partition(nodes: set<GoalHandle>, f: seq<GoalHandle>, u: seq<GoalHandle>) {
    && NoRepeats(f) && NoRepeats(u)
    && Elements(f) !! Elements(u)
    && Elements(f) + Elements(u) == nodes
  }

  ghost function FirstOf(s: seq<GoalHandle>): GoalHandle? { if s == [] then null else s[0] }

  ghost function LastOf(s: seq<GoalHandle>): GoalHandle? { if s == [] then null else s[|s| - 1] }

  ghost predicate Apart(h: GoalHandle?, s: seq<GoalHandle>) {
    forall i {:trigger s[i]} :: 0 <= i < |s| ==> s[i] != h
  }

  lemma {:induction false} ElementsAre(s: seq<GoalHandle>)
    ensures forall h :: h in Elements(s) <==> h in s
    decreases |s|
  {
    if s == [] {
    } else {
      ElementsAre(s[..|s| - 1]);
      assert s == s[..|s| - 1] + [s[|s| - 1]];
    }
  }

  lemma {:induction false} ElementsOfConcat(a: seq<GoalHandle>, b: seq<GoalHandle>)
    ensures Elements(a + b) == Elements(a) + Elements(b)
    ensures NoRepeats(a + b) <==> NoRepeats(a) && NoRepeats(b) && Elements(a) !! Elements(b)
    decreases |b|
  {
    if b == [] {
      assert a + b == a;
    } else {
      var last := |b| - 1;
      ElementsOfConcat(a, b[..last]);
      assert (a + b)[..|a| + last] == a + b[..last];
    }
  }

  lemma ElementsOfOne(h: GoalHandle)
    ensures Elements([h]) == {h} && NoRepeats([h])
  {
    assert [h][..0] == [];
  }

  lemma {:induction false} SizeOfElements(s: seq<GoalHandle>)
    requires NoRepeats(s)
    ensures |Elements(s)| == |s|
    decreases |s|
  {
    if s == [] {
    } else {
      SizeOfElements(s[..|s| - 1]);
    }
  }

  /** What a heap update at the used handle `h` needs to know about its surroundings. */
  lemma Around(nodes: set<GoalHandle>, f: seq<GoalHandle>, kept: seq<GoalHandle>, h: GoalHandle, rest: seq<GoalHandle>)
    requires Partition(nodes, f, kept + ([h] + rest))
    ensures h in nodes && Apart(h, f) && Apart(h, kept) && Apart(h, rest)
    ensures LastOf(kept) != null ==> LastOf(kept) in nodes && Apart(LastOf(kept), f) && Apart(LastOf(kept), rest)
    ensures LastOf(kept) != null ==> Apart(LastOf(kept), kept[..|kept| - 1])
    ensures Elements(rest) <= nodes && (forall i :: 0 <= i < |rest| ==> rest[i] in nodes)
    ensures Partition(nodes, [h] + f, kept + rest)
  {
    ElementsOfConcat(kept, [h] + rest);
    ElementsOfConcat([h], rest);
    ElementsOfConcat(kept, rest);
    ElementsOfConcat([h], f);
    ElementsOfOne(h);
    ElementsAre(f);
    ElementsAre(kept);
    ElementsAre(rest);
    if kept != [] {
      ElementsAre(kept[..|kept| - 1]);
    }
  }

  lemma NoRepeatsAt(s: seq<GoalHandle>, k: nat)
    requires NoRepeats(s) && k < |s|
    ensures s[k] in Elements(s) && Apart(s[k], s[k + 1..])
    ensures s[k..] == [s[k]] + s[k + 1..]
  {
    SplitAt(s, k);
    Around(Elements(s), [], s[..k], s[k], s[k + 1..]);
  }

  lemma AtHead(nodes: set<GoalHandle>, f: seq<GoalHandle>, u: seq<GoalHandle>)
    requires Partition(nodes, f, u) && f != []
    ensures f[0] in nodes && Apart(f[0], f[1..]) && Apart(f[0], u)
    ensures Partition(nodes, f[1..], [f[0]] + u)
  {
    assert f == [f[0]] + f[1..];
    ElementsOfConcat([f[0]], f[1..]);
    ElementsOfConcat([f[0]], u);
    ElementsOfOne(f[0]);
    ElementsAre(f[1..]);
    ElementsAre(u);
  }

  lemma SplitAt(s: seq<GoalHandle>, k: nat)
    requires k < |s|
    ensures s == s[..k] + ([s[k]] + s[k + 1..])
    ensures LastOf(s[..k]) == if k == 0 then null else s[k - 1]
  {
  }

  lemma Regroup(kept: seq<GoalHandle>, h: GoalHandle, rest: seq<GoalHandle>)
    ensures kept + ([h] + rest) == (kept + [h]) + rest
    ensures LastOf(kept + [h]) == h
  {
  }

  lemma HeadTail(s: seq<GoalHandle>)
    requires s != []
    ensures s == [s[0]] + s[1..]
  {
  }

  lemma EmptyTail(s: seq<GoalHandle>, t: seq<GoalHandle>)
    requires t == []
    ensures s + t == s
  {
  }

  // ----- linked lists -----

  /** The nodes `s` lead from `head` to `end` through their `next` fields. */
  ghost predicate Segment(head: GoalHandle?, s: seq<GoalHandle>, end: GoalHandle?)
    reads s
  {
    && (if s == [] then head == end else head == s[0])
    && (forall i {:trigger s[i].next} :: 0 <= i < |s| - 1 ==> s[i].next == s[i + 1])
    && (s != [] ==> s[|s| - 1].next == end)
  }

  /** `s` is the list that starts at `head`: it follows the `next` fields and it ends. */
  ghost predicate Chain(head: GoalHandle?, s: seq<GoalHandle>)
    reads s
  {
    Segment(head, s, null)
  }

  lemma SplitChain(head: GoalHandle?, kept: seq<GoalHandle>, h: GoalHandle, rest: seq<GoalHandle>)
    requires Chain(head, kept + ([h] + rest))
    ensures Segment(head, kept, h) && Chain(h.next, rest) && h.next == FirstOf(rest)
  {
    var s := kept + ([h] + rest);
    assert s[|kept|] == h;
    assert forall i :: 0 <= i < |kept| ==> kept[i] == s[i];
    assert forall i :: 0 <= i < |rest| ==> rest[i] == s[|kept| + 1 + i];
  }

  lemma JoinChain(head: GoalHandle?, kept: seq<GoalHandle>, mid: GoalHandle?, rest: seq<GoalHandle>)
    requires Segment(head, kept, mid) && Chain(mid, rest)
    ensures Chain(head, kept + rest)
  {
    var s := kept + rest;
    assert forall i :: 0 <= i < |kept| ==> kept[i] == s[i];
    assert forall i :: 0 <= i < |rest| ==> rest[i] == s[|kept| + i];
  }

  // ----- the release pass as a function -----

  /** The handles of `s` that are not marked, in order. */
  ghost function Without(s: seq<GoalHandle>, marked: set<GoalHandle>): seq<GoalHandle>
    decreases |s|
  {
    if s == [] then [] else
      var last := |s| - 1;
      Without(s[..last], marked) + if s[last] in marked then [] else [s[last]]
  }

  /** The marked handles of `s`, last first: the order in which pushing them leaves them. */
  ghost function Pushed(s: seq<GoalHandle>, marked: set<GoalHandle>): seq<GoalHandle>
    decreases |s|
  {
    if s == [] then [] else
      var last := |s| - 1;
      (if s[last] in marked then [s[last]] else []) + Pushed(s[..last], marked)
  }

  lemma {:induction false} WithoutMembers(s: seq<GoalHandle>, marked: set<GoalHandle>)
    ensures forall h :: h in Without(s, marked) <==> h in s && h !in marked
    decreases |s|
  {
    if s == [] {
    } else {
      WithoutMembers(s[..|s| - 1], marked);
      assert s == s[..|s| - 1] + [s[|s| - 1]];
    }
  }

  datatype Lists = Lists(kept: seq<GoalHandle>, free: seq<GoalHandle>)

  /** Deals the handles of `s` out one by one: a marked one is pushed onto the free list, another
      is appended to those kept. */
  ghost function Dealt(s: seq<GoalHandle>, marked: set<GoalHandle>, to: Lists): Lists
    decreases s
  {
    if s == [] then to
    else if s[0] in marked then Dealt(s[1..], marked, to.(free := [s[0]] + to.free))
    else Dealt(s[1..], marked, to.(kept := to.kept + [s[0]]))
  }

  lemma {:induction false} DealtSnoc(s: seq<GoalHandle>, marked: set<GoalHandle>, to: Lists, h: GoalHandle)
    ensures Dealt(s + [h], marked, to) == Dealt([h], marked, Dealt(s, marked, to))
    decreases s
  {
    if s == [] {
      assert s + [h] == [h];
    } else {
      assert (s + [h])[1..] == s[1..] + [h];
      DealtSnoc(s[1..], marked,
                if s[0] in marked then to.(free := [s[0]] + to.free) else to.(kept := to.kept + [s[0]]), h);
    }
  }

  /** Dealing keeps the unmarked in order and pushes the marked, the last one ending up first. */
  lemma {:induction false} DealtIs(s: seq<GoalHandle>, marked: set<GoalHandle>, f: seq<GoalHandle>)
    ensures Dealt(s, marked, Lists([], f)) == Lists(Without(s, marked), Pushed(s, marked) + f)
    decreases |s|
  {
    if s == [] {
      assert Pushed(s, marked) + f == f;
    } else {
      var last := |s| - 1;
      assert s == s[..last] + [s[last]];
      DealtSnoc(s[..last], marked, Lists([], f), s[last]);
      DealtIs(s[..last], marked, f);
      assert Pushed(s, marked) + f == (if s[last] in marked then [s[last]] else []) + (Pushed(s[..last], marked) + f);
    }
  }

  // ----- the pool -----

  class Pool {
    const memory: seq<GoalHandle>
    var free: GoalHandle?
    var used: GoalHandle?
    ghost var freeList: seq<GoalHandle>
    ghost var usedList: seq<GoalHandle>

    // The nodes of the memory block.
    ghost const nodes: set<GoalHandle>

    /** Both lists are acyclic and well linked, they are disjoint, and together they hold every
        node of the memory block exactly once. */
    ghost predicate Valid()
      reads this, freeList, usedList
    {
      && Chain(free, freeList)
      && Chain(used, usedList)
      && NoRepeats(memory) && nodes == Elements(memory)
      && Partition(nodes, freeList, usedList)
    }

    constructor (memory: seq<GoalHandle>)
      requires NoRepeats(memory)
      modifies Elements(memory)
      ensures Valid() && this.memory == memory
      ensures freeList == memory && usedList == []
    {
      this.memory, nodes := memory, Elements(memory);
      free, used := null, null;
      freeList, usedList := [], [];
      new;
      var k := |memory|;
      while k > 0
        invariant 0 <= k <= |memory|
        invariant this.memory == memory && used == null && usedList == [] && freeList == memory[k..]
        invariant Chain(free, freeList)
      {
        k := k - 1;
        NoRepeatsAt(memory, k);
        PushFree(memory[k]);
      }
      EmptyTail(memory, []);
    }

    /** Takes a free handle; null exactly when every handle is in use. */
    method Acquire() returns (h: GoalHandle?)
      requires Valid()
      modifies this, nodes
      ensures Valid()
      ensures h == null <==> |old(usedList)| == |memory|
      ensures h == null ==> freeList == old(freeList) && usedList == old(usedList)
      ensures h != null ==> old(freeList) == [h] + freeList && usedList == [h] + old(usedList)
      ensures h != null ==> !h.ended && !h.resultRequested
      ensures forall x :: x in nodes && x != h ==> x.ended == old(x.ended)
    {
      Sizes();
      h := free;
      if h != null {
        AtHead(nodes, freeList, usedList);
        HeadTail(freeList);
        free := h.next;
        h.next := used;
        used := h;
        h.ended, h.resultRequested, h.status := false, false, Unknown;
        freeList, usedList := freeList[1..], [h] + usedList;
      }
    }

    lemma Sizes()
      requires Valid()
      ensures |freeList| + |usedList| == |memory|
    {
      SizeOfElements(memory);
      SizeOfElements(freeList);
      SizeOfElements(usedList);
    }

    /** Returns a handle to the free list; false if the pool does not hold it as used. */
    method Release(h: GoalHandle) returns (ok: bool)
      requires Valid()
      modifies this, nodes
      ensures Valid()
      ensures ok <==> h in old(usedList)
      ensures !ok ==> freeList == old(freeList) && usedList == old(usedList)
      ensures ok ==> freeList == [h] + old(freeList) && usedList == Without(old(usedList), {h})
    {
      var prev: GoalHandle?, cur := null, used;
      ghost var k := 0;
      while cur != null && cur != h
        invariant 0 <= k <= |usedList|
        invariant h !in usedList[..k]
        invariant prev == if k == 0 then null else usedList[k - 1]
        invariant cur == if k < |usedList| then usedList[k] else null
        decreases |usedList| - k
      {
        prev, cur, k := cur, cur.next, k + 1;
      }
      ok := cur != null;
      if ok {
        SplitAt(usedList, k);
        WithoutOne(nodes, freeList, usedList[..k], h, usedList[k + 1..]);
        Unlink(prev, h, usedList[..k], usedList[k + 1..]);
      } else {
        assert usedList[..k] == usedList;
      }
    }

    /** The client asks for the result of a goal. */
    method TakeResultRequest(h: GoalHandle)
      requires Valid() && h in usedList
      modifies h`resultRequested
      ensures Valid() && freeList == old(freeList) && usedList == old(usedList)
      ensures h.resultRequested
    {
      h.resultRequested := true;
    }

    /** rclc_action_send_result.  On success the handle is only marked: it stays in use until the
        next spin.  Until the client has requested the result nothing changes at all. */
    method SendResultFor(h: GoalHandle, status: State) returns (r: SendResult)
      requires Valid() && h in usedList
      modifies h`ended, h`status
      ensures Valid() && freeList == old(freeList) && usedList == old(usedList)
      ensures r == if !IsTerminal(status) then NotTerminal
                   else if !old(h.resultRequested) then WaitResultRequest else Sent
      ensures r == Sent ==> h.ended && h.status == status
      ensures r != Sent ==> h.ended == old(h.ended) && h.status == old(h.status)
    {
      if !IsTerminal(status) {
        return NotTerminal;
      }
      if !h.resultRequested {
        return WaitResultRequest;
      }
      h.ended, h.status := true, status;
      return Sent;
    }

    /** The release pass at the start of an executor spin: moves exactly the ended handles to the
        free list and keeps the order of the others. */
    method ReleaseEnded()
      requires Valid()
      modifies this, nodes
      ensures Valid()
      ensures var ended := set h | h in old(usedList) && old(h.ended);
              && usedList == Without(old(usedList), ended)
              && freeList == Pushed(old(usedList), ended) + old(freeList)
      ensures forall h :: h in usedList ==> !h.ended
    {
      ghost var u := usedList;
      ghost var ended := set h | h in u && h.ended;
      assert ended == set h | h in old(usedList) && old(h.ended);
      DealtIs(u, ended, freeList);
      Sweep(ended);
      forall h | h in usedList ensures !h.ended {
        WithoutMembers(u, ended);
        ElementsAre(u);
      }
    }

    /** The loop of ReleaseEnded, where `ended` is the set of marked handles. */
    method Sweep(ghost ended: set<GoalHandle>)
      requires Valid()
      requires forall i :: 0 <= i < |usedList| ==> (usedList[i].ended <==> usedList[i] in ended)
      modifies this, nodes
      ensures Valid()
      ensures Lists(usedList, freeList) == Dealt(old(usedList), ended, Lists([], old(freeList)))
      ensures forall x :: x in nodes && !old(x.ended) ==> !x.ended
    {
      var prev: GoalHandle?, cur := null, used;
      ghost var kept: seq<GoalHandle>, rest := [], usedList;
      assert usedList == kept + rest;
      while cur != null
        invariant Dealt(rest, ended, Lists(kept, freeList)) == old(Dealt(usedList, ended, Lists([], freeList)))
        invariant usedList == kept + rest
        invariant prev == LastOf(kept) && cur == FirstOf(rest)
        invariant Valid()
        invariant forall i {:trigger rest[i]} :: 0 <= i < |rest| ==> (rest[i].ended <==> rest[i] in ended)
        invariant forall x :: x in nodes && !old(x.ended) ==> !x.ended
        decreases |rest|
      {
        ghost var h, tail := rest[0], rest[1..];
        HeadTail(rest);
        Around(nodes, freeList, kept, h, tail);
        prev, cur := Visit(prev, cur, kept, tail);
        kept, rest := if h in ended then kept else kept + [h], tail;
      }
      EmptyTail(kept, rest);
    }

    /** One step of ReleaseEnded: unlinks `h` if it has ended, and moves on. */
    method Visit(prev: GoalHandle?, h: GoalHandle, ghost kept: seq<GoalHandle>, ghost rest: seq<GoalHandle>)
      returns (prev': GoalHandle?, next: GoalHandle?)
      requires Valid() && usedList == kept + ([h] + rest) && prev == LastOf(kept)
      modifies this, nodes
      ensures Valid()
      ensures freeList == if old(h.ended) then [h] + old(freeList) else old(freeList)
      ensures usedList == (if old(h.ended) then kept else kept + [h]) + rest
      ensures prev' == LastOf(if old(h.ended) then kept else kept + [h]) && next == FirstOf(rest)
      ensures !h.ended && forall x :: x in nodes && x != h ==> x.ended == old(x.ended)
    {
      SplitChain(used, kept, h, rest);
      Regroup(kept, h, rest);
      next := h.next;
      if h.ended {
        prev' := prev;
        Unlink(prev, h, kept, rest);
      } else {
        prev' := h;
      }
    }

    /** Moves the used handle `h`, whose predecessor is `prev`, to the free list. */
    method Unlink(prev: GoalHandle?, h: GoalHandle, ghost kept: seq<GoalHandle>, ghost rest: seq<GoalHandle>)
      requires Valid() && usedList == kept + ([h] + rest) && prev == LastOf(kept)
      modifies this, nodes
      ensures Valid()
      ensures usedList == kept + rest && freeList == [h] + old(freeList)
      ensures !h.ended && forall x :: x in nodes && x != h ==> x.ended == old(x.ended)
    {
      Around(nodes, freeList, kept, h, rest);
      SplitChain(used, kept, h, rest);
      Bypass(prev, h, kept, rest);
      JoinChain(used, kept, h.next, rest);
      ApartConcat(h, kept, rest);
      usedList := kept + rest;
      PushFree(h);
    }

    /** Links around `h`. */
    method Bypass(prev: GoalHandle?, h: GoalHandle, ghost kept: seq<GoalHandle>, ghost rest: seq<GoalHandle>)
      requires Chain(free, freeList) && Segment(used, kept, h) && Chain(h.next, rest)
      requires prev == LastOf(kept) && Apart(h, kept)
      requires prev != null ==> Apart(prev, freeList) && Apart(prev, rest) && Apart(prev, kept[..|kept| - 1])
      modifies `used, if prev == null then {} else {prev}
      ensures Chain(free, freeList) && Segment(used, kept, h.next) && Chain(h.next, rest)
      ensures prev != null ==> prev.ended == old(prev.ended)
    {
      if prev == null {
        used := h.next;
      } else {
        assert forall i :: 0 <= i < |kept| - 1 ==> kept[i] == kept[..|kept| - 1][i];
        prev.next := h.next;
      }
    }

    /** Makes `h` the head of the free list. */
    method PushFree(h: GoalHandle)
      requires Chain(free, freeList) && Chain(used, usedList)
      requires Apart(h, freeList) && Apart(h, usedList)
      modifies `free, `freeList, h
      ensures Chain(free, freeList) && Chain(used, usedList) && freeList == [h] + old(freeList) && !h.ended
    {
      assert forall i :: 0 <= i < |freeList| ==> ([h] + freeList)[i + 1] == freeList[i];
      h.next := free;
      free := h;
      h.ended := false;
      freeList := [h] + freeList;
    }
  }

  lemma ApartConcat(h: GoalHandle, a: seq<GoalHandle>, b: seq<GoalHandle>)
    requires Apart(h, a) && Apart(h, b)
    ensures Apart(h, a + b)
  {
  }

  lemma WithoutOne(
    nodes: set<GoalHandle>, f: seq<GoalHandle>, kept: seq<GoalHandle>, h: GoalHandle, rest: seq<GoalHandle>)
    requires Partition(nodes, f, kept + ([h] + rest))
    ensures Without(kept + ([h] + rest), {h}) == kept + rest
  {
    Around(nodes, f, kept, h, rest);
    Regroup(kept, h, rest);
    WithoutNone(kept, h);
    assert (kept + [h])[..|kept|] == kept;
    WithoutTail(kept + [h], rest, h);
    assert Without(kept + [h], {h}) == kept + [];
  }

  lemma {:induction false} WithoutNone(s: seq<GoalHandle>, h: GoalHandle)
    requires Apart(h, s)
    ensures Without(s, {h}) == s
    decreases |s|
  {
    if s == [] {
    } else {
      WithoutNone(s[..|s| - 1], h);
      assert s == s[..|s| - 1] + [s[|s| - 1]];
    }
  }

  lemma {:induction false} WithoutTail(a: seq<GoalHandle>, b: seq<GoalHandle>, h: GoalHandle)
    requires Apart(h, b)
    ensures Without(a + b, {h}) == Without(a, {h}) + b
    decreases |b|
  {
    if b == [] {
      assert a + b == a;
    } else {
      var last := |b| - 1;
      WithoutTail(a, b[..last], h);
      assert (a + b)[..|a| + last] == a + b[..last];
      assert b == b[..last] + [b[last]];
    }
  }

  /** Main result: in a valid pool every node of the memory block is in exactly one of the lists,
      and occurs there once. */
  lemma EveryNodeOnce(p: Pool, h: GoalHandle)
    requires p.Valid()
    ensures h in p.memory <==> (h in p.freeList) != (h in p.usedList)
    ensures multiset(p.memory) == multiset(p.freeList) + multiset(p.usedList)
  {
    ElementsAre(p.memory);
    ElementsAre(p.freeList);
    ElementsAre(p.usedList);
    Multiplicity(p.memory);
    Multiplicity(p.freeList);
    Multiplicity(p.usedList);
  }

  lemma {:induction false} Multiplicity(s: seq<GoalHandle>)
    requires NoRepeats(s)
    ensures forall h :: multiset(s)[h] == if h in Elements(s) then 1 else 0
    decreases |s|
  {
    if s == [] {
    } else {
      Multiplicity(s[..|s| - 1]);
      assert s == s[..|s| - 1] + [s[|s| - 1]];
    }
  }
}
