/** One spin of the rclc executor under its two data-communication semantics: src/rclc/executor.h.

    Under logical-execution-time semantics (LET) all ready handles take their data at one sampling
    point; under RCLCPP semantics each takes it just before its own callback.  Messages keep
    arriving all the while.  The middleware is not part of the source shown, so it is modelled as
    one bounded queue per entity that drops its oldest message when it overflows, and the arrivals
    are arbitrary.
 */
module ExecutorSpin {
  import opened Common
  import opened ExecutorHandles

  type Msg = int

  datatype Arrival = Arrival(entity: int, msg: Msg)

  type Queues = map<int, seq<Msg>>

  function QueueOf(q: Queues, e: int): seq<Msg> {
    if e in q then q[e] else []
  }

  /** The newest `n` messages of `ms`. */
  function Newest(ms: seq<Msg>, n: nat): seq<Msg> {
    if |ms| <= n then ms else ms[|ms| - n..]
  }

  function Deliver(q: Queues, depth: nat, arrivals: seq<Arrival>): Queues
    decreases |arrivals|
  {
    if arrivals == [] then q else
      var a := arrivals[|arrivals| - 1];
      var before := Deliver(q, depth, arrivals[..|arrivals| - 1]);
      before[a.entity := Newest(QueueOf(before, a.entity) + [a.msg], depth)]
  }

  /** All arrivals, in order. */
  function Flatten(arrivals: seq<seq<Arrival>>): seq<Arrival>
    decreases |arrivals|
  {
    if arrivals == [] then [] else Flatten(arrivals[..|arrivals| - 1]) + arrivals[|arrivals| - 1]
  }

  /** The messages among the arrivals that are for entity `e`. */
  function MessagesFor(e: int, arrivals: seq<Arrival>): seq<Msg>
    decreases |arrivals|
  {
    if arrivals == [] then [] else
      var a := arrivals[|arrivals| - 1];
      MessagesFor(e, arrivals[..|arrivals| - 1]) + if a.entity == e then [a.msg] else []
  }

  // ----- taking data -----

  /** Kinds whose handles take a message; a timer or guard condition is just ready. */
  predicate TakesData(k: Kind) {
    k == Subscriptions || k == Clients || k == Services
  }

  /** What a handle has when its turn comes: whether it is to be processed, and with what. */
  datatype Sample = Sample(available: bool, data: Option<Msg>)

  datatype Taken = Taken(sample: Sample, queues: Queues)

  /** `h.dataAvailable` says that the wait found the handle ready; rcl_take may still find
      nothing. */
  function Take(h: Handle, q: Queues): Taken {
    if !h.dataAvailable then Taken(Sample(false, None), q)
    else if !TakesData(h.Kind()) then Taken(Sample(true, None), q)
    else
      var ms := QueueOf(q, h.entity);
      if ms == [] then Taken(Sample(false, None), q)
      else Taken(Sample(true, Some(ms[0])), q[h.entity := ms[1..]])
  }

  datatype Call = Call(entity: int, data: Option<Msg>)

  /** The callback runs on new data, or always. */
  function CallOf(h: Handle, s: Sample): seq<Call> {
    if h.invocation == Always || s.available then [Call(h.entity, s.data)] else []
  }

  // ----- the two semantics -----

  datatype Sampling = Sampling(samples: seq<Sample>, queues: Queues)

  /** The sampling point: every handle takes its data, one after the other. */
  function SampleAll(hs: seq<Handle>, q: Queues): (r: Sampling)
    ensures |r.samples| == |hs|
    decreases |hs|
  {
    if hs == [] then Sampling([], q) else
      var before := SampleAll(hs[..|hs| - 1], q);
      var t := Take(hs[|hs| - 1], before.queues);
      Sampling(before.samples + [t.sample], t.queues)
  }

  function CallsOf(hs: seq<Handle>, samples: seq<Sample>): seq<Call>
    requires |samples| == |hs|
    decreases |hs|
  {
    if hs == [] then [] else
      CallsOf(hs[..|hs| - 1], samples[..|hs| - 1]) + CallOf(hs[|hs| - 1], samples[|hs| - 1])
  }

  /** The callbacks of a LET spin depend on the queues at the sampling point and nothing else. */
  function LetTrace(hs: seq<Handle>, q: Queues): seq<Call> {
    CallsOf(hs, SampleAll(hs, q).samples)
  }

  /** A RCLCPP spin: `arrivals[i]` come in before the turn of the i-th handle. */
  function RclcppRun(hs: seq<Handle>, q: Queues, depth: nat, arrivals: seq<seq<Arrival>>): (r: Sampling)
    requires |arrivals| == |hs|
    ensures |r.samples| == |hs|
    decreases |hs|
  {
    if hs == [] then Sampling([], q) else
      var last := |hs| - 1;
      var before := RclcppRun(hs[..last], q, depth, arrivals[..last]);
      var t := Take(hs[last], Deliver(before.queues, depth, arrivals[last]));
      Sampling(before.samples + [t.sample], t.queues)
  }

  function RclcppTrace(hs: seq<Handle>, q: Queues, depth: nat, arrivals: seq<seq<Arrival>>): seq<Call>
    requires |arrivals| == |hs|
  {
    CallsOf(hs, RclcppRun(hs, q, depth, arrivals).samples)
  }

  // ----- the spin as it runs -----

  datatype Semantics = RclcppExecutor | LogicalExecutionTime

  class Middleware {
    const depth: nat
    var queues: Queues

    constructor (depth: nat)
      ensures this.depth == depth && queues == map[]
    {
      this.depth, queues := depth, map[];
    }

    method Arrive(arrivals: seq<Arrival>)
      modifies this
      ensures queues == Deliver(old(queues), depth, arrivals)
    {
      for i := 0 to |arrivals|
        invariant queues == Deliver(old(queues), depth, arrivals[..i])
      {
        var a := arrivals[i];
        assert arrivals[..i + 1][..i] == arrivals[..i];
        queues := queues[a.entity := Newest(QueueOf(queues, a.entity) + [a.msg], depth)];
      }
      assert arrivals[..|arrivals|] == arrivals;
    }

    /** Takes the data of handle `h` into its sample. */
    method TakeFor(h: Handle) returns (s: Sample)
      modifies this
      ensures Taken(s, queues) == Take(h, old(queues))
    {
      var t := Take(h, queues);
      s, queues := t.sample, t.queues;
    }
  }

  /** rclc_executor_spin_some after the wait: the handles carry the readiness that the wait found.
      `storage` is where the callers had the executor put their messages; `arrivals[i]` come in
      before the i-th handle is processed.  Under LET the trace is the same whatever they are. */
  method SpinSome(
    hs: seq<Handle>, storage: array<Sample>, mw: Middleware, semantics: Semantics,
    trigger: seq<Handle> -> bool, arrivals: seq<seq<Arrival>>)
    returns (trace: seq<Call>)
    requires storage.Length == |hs| == |arrivals|
    modifies storage, mw
    ensures !trigger(hs) ==> trace == [] && mw.queues == old(mw.queues)
    ensures trigger(hs) && semantics == LogicalExecutionTime ==>
              trace == LetTrace(hs, old(mw.queues))
              && mw.queues == Deliver(SampleAll(hs, old(mw.queues)).queues, mw.depth, Flatten(arrivals))
    ensures trigger(hs) && semantics == RclcppExecutor ==>
              trace == RclcppTrace(hs, old(mw.queues), mw.depth, arrivals)
              && mw.queues == RclcppRun(hs, old(mw.queues), mw.depth, arrivals).queues
  {
    trace := [];
    if !trigger(hs) {
      return;
    }
    match semantics
    case LogicalExecutionTime =>
      SampleHandles(hs, storage, mw);
      trace := ProcessSamples(hs, storage, mw, arrivals);
    case RclcppExecutor =>
      trace := TakeAndProcess(hs, storage, mw, arrivals);
  }

  method SampleHandles(hs: seq<Handle>, storage: array<Sample>, mw: Middleware)
    requires storage.Length == |hs|
    modifies storage, mw
    ensures Sampling(storage[..], mw.queues) == SampleAll(hs, old(mw.queues))
  {
    for i := 0 to |hs|
      invariant Sampling(storage[..i], mw.queues) == SampleAll(hs[..i], old(mw.queues))
    {
      assert hs[..i + 1][..i] == hs[..i];
      storage[i] := mw.TakeFor(hs[i]);
      assert storage[..i + 1] == storage[..i] + [storage[i]];
    }
    assert hs[..|hs|] == hs && storage[..|hs|] == storage[..];
  }

  /** Messages that arrive while the samples are processed go to the queues, not to the samples. */
  method ProcessSamples(hs: seq<Handle>, storage: array<Sample>, mw: Middleware, arrivals: seq<seq<Arrival>>)
    returns (trace: seq<Call>)
    requires storage.Length == |hs| == |arrivals|
    modifies mw
    ensures trace == CallsOf(hs, storage[..])
    ensures mw.queues == Deliver(old(mw.queues), mw.depth, Flatten(arrivals))
  {
    trace := [];
    for i := 0 to |hs|
      invariant trace == CallsOf(hs[..i], storage[..i])
      invariant mw.queues == Deliver(old(mw.queues), mw.depth, Flatten(arrivals[..i]))
    {
      DeliverNext(old(mw.queues), mw.depth, arrivals, i);
      mw.Arrive(arrivals[i]);
      CallsNext(hs, storage[..i], storage[i]);
      assert storage[..i] + [storage[i]] == storage[..i + 1];
      trace := trace + CallOf(hs[i], storage[i]);
    }
    assert hs[..|hs|] == hs && storage[..|hs|] == storage[..] && arrivals[..|hs|] == arrivals;
  }

  lemma {:induction false} DeliverConcat(q: Queues, depth: nat, a: seq<Arrival>, b: seq<Arrival>)
    ensures Deliver(q, depth, a + b) == Deliver(Deliver(q, depth, a), depth, b)
    decreases |b|
  {
    if b == [] {
      assert a + b == a;
    } else {
      assert (a + b)[..|a + b| - 1] == a + b[..|b| - 1];
      DeliverConcat(q, depth, a, b[..|b| - 1]);
    }
  }

  lemma DeliverNext(q: Queues, depth: nat, arrivals: seq<seq<Arrival>>, i: nat)
    requires i < |arrivals|
    ensures Deliver(q, depth, Flatten(arrivals[..i + 1])) ==
            Deliver(Deliver(q, depth, Flatten(arrivals[..i])), depth, arrivals[i])
  {
    assert arrivals[..i + 1][..i] == arrivals[..i];
    DeliverConcat(q, depth, Flatten(arrivals[..i]), arrivals[i]);
  }

  /** One more handle. */
  lemma RclcppNext(hs: seq<Handle>, q: Queues, depth: nat, arrivals: seq<seq<Arrival>>, i: nat)
    requires i < |hs| == |arrivals|
    ensures var before := RclcppRun(hs[..i], q, depth, arrivals[..i]);
            var t := Take(hs[i], Deliver(before.queues, depth, arrivals[i]));
            RclcppRun(hs[..i + 1], q, depth, arrivals[..i + 1]) == Sampling(before.samples + [t.sample], t.queues)
  {
    assert hs[..i + 1][..i] == hs[..i] && arrivals[..i + 1][..i] == arrivals[..i];
  }

  lemma CallsNext(hs: seq<Handle>, samples: seq<Sample>, s: Sample)
    requires |samples| < |hs|
    ensures CallsOf(hs[..|samples| + 1], samples + [s]) ==
            CallsOf(hs[..|samples|], samples) + CallOf(hs[|samples|], s)
  {
    assert hs[..|samples| + 1][..|samples|] == hs[..|samples|];
    assert (samples + [s])[..|samples|] == samples;
  }

  method TakeAndProcess(hs: seq<Handle>, storage: array<Sample>, mw: Middleware, arrivals: seq<seq<Arrival>>)
    returns (trace: seq<Call>)
    requires storage.Length == |hs| == |arrivals|
    modifies storage, mw
    ensures trace == RclcppTrace(hs, old(mw.queues), mw.depth, arrivals)
    ensures mw.queues == RclcppRun(hs, old(mw.queues), mw.depth, arrivals).queues
  {
    trace := [];
    ghost var run := Sampling([], mw.queues);
    for i := 0 to |hs|
      invariant run == RclcppRun(hs[..i], old(mw.queues), mw.depth, arrivals[..i])
      invariant run == Sampling(storage[..i], mw.queues)
      invariant trace == CallsOf(hs[..i], run.samples)
    {
      RclcppNext(hs, old(mw.queues), mw.depth, arrivals, i);
      CallsNext(hs, run.samples, Take(hs[i], Deliver(run.queues, mw.depth, arrivals[i])).sample);
      mw.Arrive(arrivals[i]);
      storage[i] := mw.TakeFor(hs[i]);
      trace := trace + CallOf(hs[i], storage[i]);
      assert storage[..i + 1] == run.samples + [storage[i]];
      run := Sampling(run.samples + [storage[i]], mw.queues);
    }
    assert hs[..|hs|] == hs && storage[..|hs|] == storage[..] && arrivals[..|hs|] == arrivals;
  }

  // ----- agreement when nothing arrives -----

  predicate Silent(arrivals: seq<seq<Arrival>>) {
    forall i :: 0 <= i < |arrivals| ==> arrivals[i] == []
  }

  /** Main result: if nothing arrives after the sampling point, both semantics run the same
      callbacks with the same data and leave the same messages behind. */
  lemma {:induction false} SemanticsAgreeInSilence(hs: seq<Handle>, q: Queues, depth: nat, arrivals: seq<seq<Arrival>>)
    requires |arrivals| == |hs| && Silent(arrivals)
    ensures RclcppRun(hs, q, depth, arrivals) == SampleAll(hs, q)
    ensures RclcppTrace(hs, q, depth, arrivals) == LetTrace(hs, q)
    decreases |hs|
  {
    if hs == [] {
    } else {
      SemanticsAgreeInSilence(hs[..|hs| - 1], q, depth, arrivals[..|hs| - 1]);
    }
  }

  // ----- exactly when arrivals make a difference -----

  /** The messages for entity `e` that come in before the turn of the i-th handle. */
  function Incoming(e: int, arrivals: seq<seq<Arrival>>, i: nat): seq<Msg>
    requires i < |arrivals|
  {
    MessagesFor(e, Flatten(arrivals[..i + 1]))
  }

  predicate DistinctEntities(hs: seq<Handle>) {
    forall i, j :: 0 <= i < j < |hs| ==> hs[i].entity != hs[j].entity
  }

  /** What arrives for the i-th handle before its turn neither fills an empty queue nor overflows a
      filled one. */
  predicate Undisturbed(hs: seq<Handle>, q: Queues, depth: nat, arrivals: seq<seq<Arrival>>, i: nat)
    requires i < |hs| == |arrivals|
  {
    var waiting, incoming := QueueOf(q, hs[i].entity), Incoming(hs[i].entity, arrivals, i);
    hs[i].dataAvailable && TakesData(hs[i].Kind()) ==>
      if waiting == [] then incoming == [] else |waiting| + |incoming| <= depth
  }

  predicate NoDuplicates(ms: seq<Msg>) {
    forall i, j :: 0 <= i < j < |ms| ==> ms[i] != ms[j]
  }

  /** Messages can be told apart: no queue receives the same message twice. */
  ghost predicate Distinguishable(hs: seq<Handle>, q: Queues, arrivals: seq<seq<Arrival>>)
    requires |arrivals| == |hs|
  {
    forall i :: 0 <= i < |hs| ==> NoDuplicates(QueueOf(q, hs[i].entity) + Incoming(hs[i].entity, arrivals, i))
  }

  ghost predicate WithinDepth(q: Queues, depth: nat) {
    forall e :: e in q ==> |q[e]| <= depth
  }

  lemma {:induction false} MessagesForConcat(e: int, a: seq<Arrival>, b: seq<Arrival>)
    ensures MessagesFor(e, a + b) == MessagesFor(e, a) + MessagesFor(e, b)
    decreases |b|
  {
    if b == [] {
      assert a + b == a;
    } else {
      assert (a + b)[..|a + b| - 1] == a + b[..|b| - 1];
      MessagesForConcat(e, a, b[..|b| - 1]);
    }
  }

  lemma NewestOfNewest(a: seq<Msg>, b: seq<Msg>, n: nat)
    ensures Newest(Newest(a, n) + b, n) == Newest(a + b, n)
  {
  }

  /** A queue holds the newest of what it held and what came in. */
  lemma {:induction false} DeliverIsNewest(q: Queues, depth: nat, arrivals: seq<Arrival>, e: int)
    requires |QueueOf(q, e)| <= depth
    ensures QueueOf(Deliver(q, depth, arrivals), e) == Newest(QueueOf(q, e) + MessagesFor(e, arrivals), depth)
    decreases |arrivals|
  {
    var held := QueueOf(q, e);
    if arrivals == [] {
      assert held + [] == held;
    } else {
      var a := arrivals[|arrivals| - 1];
      var rest := arrivals[..|arrivals| - 1];
      DeliverIsNewest(q, depth, rest, e);
      if a.entity == e {
        NewestOfNewest(held + MessagesFor(e, rest), [a.msg], depth);
        assert held + MessagesFor(e, rest) + [a.msg] == held + MessagesFor(e, arrivals);
      } else {
        assert MessagesFor(e, arrivals) == MessagesFor(e, rest);
      }
    }
  }

  /** One more batch of arrivals for a queue that holds the newest of `held`. */
  lemma DeliverMore(q: Queues, depth: nat, held: seq<Msg>, arrivals: seq<Arrival>, e: int)
    requires QueueOf(q, e) == Newest(held, depth)
    ensures QueueOf(Deliver(q, depth, arrivals), e) == Newest(held + MessagesFor(e, arrivals), depth)
  {
    DeliverIsNewest(q, depth, arrivals, e);
    NewestOfNewest(held, MessagesFor(e, arrivals), depth);
  }

  /** What has come in for `e` up to and including the last batch. */
  lemma IncomingSnoc(waiting: seq<Msg>, e: int, arrivals: seq<seq<Arrival>>)
    requires arrivals != []
    ensures var last := |arrivals| - 1;
            waiting + MessagesFor(e, Flatten(arrivals))
            == (waiting + MessagesFor(e, Flatten(arrivals[..last]))) + MessagesFor(e, arrivals[last])
  {
    MessagesForConcat(e, Flatten(arrivals[..|arrivals| - 1]), arrivals[|arrivals| - 1]);
  }

  lemma TakeLeavesOthers(h: Handle, q: Queues, e: int)
    requires h.entity != e
    ensures QueueOf(Take(h, q).queues, e) == QueueOf(q, e)
  {
  }

  /** Before its turn a handle's queue has only seen arrivals, since no other handle takes from it. */
  lemma {:induction false} QueueBeforeTurn(hs: seq<Handle>, q: Queues, depth: nat, arrivals: seq<seq<Arrival>>, e: int)
    requires |arrivals| == |hs| && |QueueOf(q, e)| <= depth
    requires forall i :: 0 <= i < |hs| ==> hs[i].entity != e
    ensures QueueOf(RclcppRun(hs, q, depth, arrivals).queues, e)
            == Newest(QueueOf(q, e) + MessagesFor(e, Flatten(arrivals)), depth)
    ensures QueueOf(SampleAll(hs, q).queues, e) == QueueOf(q, e)
    decreases |hs|
  {
    var waiting := QueueOf(q, e);
    if hs == [] {
      assert waiting + [] == waiting;
    } else {
      var last := |hs| - 1;
      var before := RclcppRun(hs[..last], q, depth, arrivals[..last]).queues;
      QueueBeforeTurn(hs[..last], q, depth, arrivals[..last], e);
      DeliverMore(before, depth, waiting + MessagesFor(e, Flatten(arrivals[..last])), arrivals[last], e);
      IncomingSnoc(waiting, e, arrivals);
      TakeLeavesOthers(hs[last], Deliver(before, depth, arrivals[last]), e);
      TakeLeavesOthers(hs[last], SampleAll(hs[..last], q).queues, e);
    }
  }

  /** What a handle samples depends on the queue of its own entity alone. */
  lemma TakeIsLocal(h: Handle, q: Queues)
    ensures Take(h, q).sample == Take(h, map[h.entity := QueueOf(q, h.entity)]).sample
  {
  }

  /** The samples of the last handle under both semantics, from its queue alone. */
  lemma SamplesAtTurn(hs: seq<Handle>, q: Queues, depth: nat, arrivals: seq<seq<Arrival>>)
    requires |arrivals| == |hs| && hs != [] && DistinctEntities(hs) && WithinDepth(q, depth)
    ensures var last := |hs| - 1;
            var h := hs[last];
            var waiting, incoming := QueueOf(q, h.entity), Incoming(h.entity, arrivals, last);
            && SampleAll(hs, q).samples[last] == Take(h, map[h.entity := waiting]).sample
            && RclcppRun(hs, q, depth, arrivals).samples[last]
               == Take(h, map[h.entity := Newest(waiting + incoming, depth)]).sample
  {
    var last := |hs| - 1;
    var h, e, waiting := hs[last], hs[last].entity, QueueOf(q, hs[last].entity);
    var before := RclcppRun(hs[..last], q, depth, arrivals[..last]).queues;
    QueueBeforeTurn(hs[..last], q, depth, arrivals[..last], e);
    DeliverMore(before, depth, waiting + MessagesFor(e, Flatten(arrivals[..last])), arrivals[last], e);
    IncomingSnoc(waiting, e, arrivals);
    assert arrivals[..last + 1] == arrivals;
    TakeIsLocal(h, Deliver(before, depth, arrivals[last]));
    TakeIsLocal(h, SampleAll(hs[..last], q).queues);
  }

  /** Taking from a queue that has seen arrivals yields the same sample exactly when they neither
      filled it nor overflowed it. */
  lemma SampleUnchangedIff(h: Handle, waiting: seq<Msg>, incoming: seq<Msg>, depth: nat)
    requires 0 < depth && |waiting| <= depth && NoDuplicates(waiting + incoming)
    ensures Take(h, map[h.entity := waiting]).sample ==
            Take(h, map[h.entity := Newest(waiting + incoming, depth)]).sample
            <==> (h.dataAvailable && TakesData(h.Kind()) ==>
                    if waiting == [] then incoming == [] else |waiting| + |incoming| <= depth)
  {
    var all := waiting + incoming;
    var left := Newest(all, depth);
    if waiting != [] {
      assert all[0] == waiting[0] && left[0] == all[|all| - |left|];
    }
  }

  lemma {:induction false} CalledEntities(hs: seq<Handle>, samples: seq<Sample>, e: int)
    requires |samples| == |hs| && forall i :: 0 <= i < |hs| ==> hs[i].entity != e
    ensures forall i :: 0 <= i < |CallsOf(hs, samples)| ==> CallsOf(hs, samples)[i].entity != e
    decreases |hs|
  {
    if hs == [] {
    } else {
      CalledEntities(hs[..|hs| - 1], samples[..|hs| - 1], e);
    }
  }

  /** Distinct entities: equal traces come from equal samples, as far as callbacks see them. */
  lemma TracesEqualIff(hs: seq<Handle>, a: seq<Sample>, b: seq<Sample>)
    requires |a| == |b| == |hs| && hs != [] && DistinctEntities(hs)
    ensures var last := |hs| - 1;
            CallsOf(hs, a) == CallsOf(hs, b) <==>
            && CallsOf(hs[..last], a[..last]) == CallsOf(hs[..last], b[..last])
            && CallOf(hs[last], a[last]) == CallOf(hs[last], b[last])
  {
    var last := |hs| - 1;
    var ta, tb := CallsOf(hs[..last], a[..last]), CallsOf(hs[..last], b[..last]);
    var ca, cb := CallOf(hs[last], a[last]), CallOf(hs[last], b[last]);
    CalledEntities(hs[..last], a[..last], hs[last].entity);
    CalledEntities(hs[..last], b[..last], hs[last].entity);
    if |ta + ca| == |tb + cb| && |ca| < |cb| {
      assert (ta + ca)[|tb|] == ta[|tb|] && (tb + cb)[|tb|] == cb[0];
    } else if |ta + ca| == |tb + cb| && |cb| < |ca| {
      assert (ta + ca)[|ta|] == ca[0] && (tb + cb)[|ta|] == tb[|ta|];
    } else if ta + ca == tb + cb {
      assert ta == (ta + ca)[..|ta|] && tb == (tb + cb)[..|tb|];
      assert ca == (ta + ca)[|ta|..] && cb == (tb + cb)[|tb|..];
    }
  }

  /** Callbacks see every difference between samples of the same handle. */
  lemma CallsShowSamples(h: Handle, x: seq<Msg>, y: seq<Msg>)
    ensures var a, b := Take(h, map[h.entity := x]).sample, Take(h, map[h.entity := y]).sample;
            CallOf(h, a) == CallOf(h, b) <==> a == b
  {
  }

  /** Main result: for distinct entities and messages, and whatever arrives when, the two semantics
      run the same callbacks with the same data exactly when, for every ready handle, what arrives
      before its turn neither fills an empty queue nor overflows a filled one. */
  lemma {:induction false} SemanticsAgreeIff(hs: seq<Handle>, q: Queues, depth: nat, arrivals: seq<seq<Arrival>>)
    requires |arrivals| == |hs| && DistinctEntities(hs) && 0 < depth && WithinDepth(q, depth)
    requires Distinguishable(hs, q, arrivals)
    ensures RclcppTrace(hs, q, depth, arrivals) == LetTrace(hs, q) <==>
            forall i :: 0 <= i < |hs| ==> Undisturbed(hs, q, depth, arrivals, i)
    decreases |hs|
  {
    if hs == [] {
    } else {
      var last := |hs| - 1;
      var h := hs[last];
      var waiting, incoming := QueueOf(q, h.entity), Incoming(h.entity, arrivals, last);
      var runs, samples := RclcppRun(hs, q, depth, arrivals).samples, SampleAll(hs, q).samples;
      PrefixFacts(hs, q, depth, arrivals);
      SemanticsAgreeIff(hs[..last], q, depth, arrivals[..last]);
      SamplesAtTurn(hs, q, depth, arrivals);
      SampleUnchangedIff(h, waiting, incoming, depth);
      CallsShowSamples(h, waiting, Newest(waiting + incoming, depth));
      assert CallOf(h, runs[last]) == CallOf(h, samples[last]) <==> Undisturbed(hs, q, depth, arrivals, last);
      TracesEqualIff(hs, runs, samples);
      assert runs[..last] == RclcppRun(hs[..last], q, depth, arrivals[..last]).samples;
      assert samples[..last] == SampleAll(hs[..last], q).samples;
    }
  }

  lemma PrefixFacts(hs: seq<Handle>, q: Queues, depth: nat, arrivals: seq<seq<Arrival>>)
    requires |arrivals| == |hs| && hs != []
    ensures var last := |hs| - 1;
            && (Distinguishable(hs, q, arrivals) ==> Distinguishable(hs[..last], q, arrivals[..last]))
            && (forall i :: 0 <= i < last ==>
                  (Undisturbed(hs, q, depth, arrivals, i) <==> Undisturbed(hs[..last], q, depth, arrivals[..last], i)))
  {
    var last := |hs| - 1;
    forall i | 0 <= i < last
      ensures Incoming(hs[i].entity, arrivals, i) == Incoming(hs[..last][i].entity, arrivals[..last], i)
    {
      assert arrivals[..last][..i + 1] == arrivals[..i + 1];
    }
  }

  // ----- a spin of an executor -----

  /** The handles of an executor as the wait leaves them. */
  function Readied(hs: seq<Handle>, ready: (Kind, int) -> bool): (r: seq<Handle>)
    ensures |r| == |hs|
    ensures forall i :: 0 <= i < |r| ==> r[i] == Flagged(Ranked(hs, i), ready)
  {
    seq(|hs|, i requires 0 <= i < |hs| => Flagged(Ranked(hs, i), ready))
  }

  /** rclc_executor_spin_some: prepares the wait set, waits, and processes the handles of the
      executor's array from first to last. */
  method SpinExecutor(
    ex: Executor, ws: WaitSet, ready: (Kind, int) -> bool, storage: array<Sample>, mw: Middleware,
    semantics: Semantics, trigger: seq<Handle> -> bool, arrivals: seq<seq<Arrival>>)
    returns (trace: seq<Call>)
    requires ex.Valid() && storage.Length == ex.index == |arrivals|
    modifies ex.handles, ws, storage, mw
    ensures ex.Valid() && ex.View() == Readied(old(ex.View()), ready)
    ensures var hs := Readied(old(ex.View()), ready);
            if !trigger(hs) then
              trace == [] && mw.queues == old(mw.queues)
            else if semantics == LogicalExecutionTime then
              && trace == LetTrace(hs, old(mw.queues))
              && mw.queues == Deliver(SampleAll(hs, old(mw.queues)).queues, mw.depth, Flatten(arrivals))
            else
              && trace == RclcppTrace(hs, old(mw.queues), mw.depth, arrivals)
              && mw.queues == RclcppRun(hs, old(mw.queues), mw.depth, arrivals).queues
  {
    ex.Prepare(ws);
    ex.CheckForNewData(ws, ready);
    var hs := ex.handles[..ex.index];
    assert hs == Readied(old(ex.View()), ready);
    trace := SpinSome(hs, storage, mw, semantics, trigger, arrivals);
  }

  function EntitiesOf(hs: seq<Handle>): seq<int>
    decreases |hs|
  {
    if hs == [] then [] else EntitiesOf(hs[..|hs| - 1]) + [hs[|hs| - 1].entity]
  }

  function Called(trace: seq<Call>): seq<int>
    decreases |trace|
  {
    if trace == [] then [] else Called(trace[..|trace| - 1]) + [trace[|trace| - 1].entity]
  }

  lemma CalledSnoc(trace: seq<Call>, c: Call)
    ensures Called(trace + [c]) == Called(trace) + [c.entity]
  {
    assert (trace + [c])[..|trace|] == trace;
  }

  lemma {:induction false} CallsInOrder(hs: seq<Handle>, samples: seq<Sample>)
    requires |samples| == |hs|
    ensures Subsequence(Called(CallsOf(hs, samples)), EntitiesOf(hs))
    decreases |hs|
  {
    if hs == [] {
    } else {
      var last := |hs| - 1;
      var h, before := hs[last], CallsOf(hs[..last], samples[..last]);
      CallsInOrder(hs[..last], samples[..last]);
      SubsequenceSnoc(Called(before), EntitiesOf(hs[..last]), h.entity);
      if CallOf(h, samples[last]) == [] {
        assert CallsOf(hs, samples) == before;
      } else {
        CalledSnoc(before, Call(h.entity, samples[last].data));
      }
    }
  }

  lemma {:induction false} EntitiesInOrder(a: seq<Handle>, b: seq<Handle>)
    requires Subsequence(a, b)
    ensures Subsequence(EntitiesOf(a), EntitiesOf(b))
    decreases |b|
  {
    if a == [] {
    } else {
      var init := b[..|b| - 1];
      if Subsequence(a, init) {
        EntitiesInOrder(a, init);
        SubsequenceSnoc(EntitiesOf(a), EntitiesOf(init), b[|b| - 1].entity);
      } else {
        EntitiesInOrder(a[..|a| - 1], init);
        SubsequenceSnoc(EntitiesOf(a[..|a| - 1]), EntitiesOf(init), b[|b| - 1].entity);
      }
    }
  }

  lemma {:induction false} SameEntities(a: seq<Handle>, b: seq<Handle>)
    requires |a| == |b| && forall i :: 0 <= i < |a| ==> a[i].entity == b[i].entity
    ensures EntitiesOf(a) == EntitiesOf(b)
    decreases |a|
  {
    if a == [] {
    } else {
      SameEntities(a[..|a| - 1], b[..|b| - 1]);
    }
  }

  /** Main result: after any run of additions and removals, a spin under either semantics runs its
      callbacks in the order in which their handles were added. */
  lemma SpinsFollowAddition(
    max: nat, ops: seq<Op>, ready: (Kind, int) -> bool, q: Queues, depth: nat, arrivals: seq<seq<Arrival>>)
    requires |arrivals| == |Play(NOTHING, max, ops).live|
    ensures var h := Play(NOTHING, max, ops);
            var hs := Readied(h.live, ready);
            && Subsequence(Called(LetTrace(hs, q)), EntitiesOf(h.added))
            && Subsequence(Called(RclcppTrace(hs, q, depth, arrivals)), EntitiesOf(h.added))
  {
    var h := Play(NOTHING, max, ops);
    var hs := Readied(h.live, ready);
    RunsKeepAccounts(max, ops);
    EntitiesInOrder(h.live, h.added);
    SameEntities(hs, h.live);
    CallsInOrder(hs, SampleAll(hs, q).samples);
    CallsInOrder(hs, RclcppRun(hs, q, depth, arrivals).samples);
    SubsequenceTransitive(Called(LetTrace(hs, q)), EntitiesOf(hs), EntitiesOf(h.added));
    SubsequenceTransitive(Called(RclcppTrace(hs, q, depth, arrivals)), EntitiesOf(hs), EntitiesOf(h.added));
  }

  // ----- messages over several spins -----

  /** The data that the callbacks of entity `e` got, in order. */
  function DataFor(e: int, trace: seq<Call>): seq<Msg>
    decreases |trace|
  {
    if trace == [] then [] else
      var c := trace[|trace| - 1];
      DataFor(e, trace[..|trace| - 1]) + if c.entity == e && c.data.Some? then [c.data.value] else []
  }

  lemma DataSnoc(e: int, trace: seq<Call>, c: Call)
    ensures DataFor(e, trace + [c]) == DataFor(e, trace) + if c.entity == e && c.data.Some? then [c.data.value] else []
  {
    assert (trace + [c])[..|trace|] == trace;
  }

  lemma {:induction false} DataConcat(e: int, a: seq<Call>, b: seq<Call>)
    ensures DataFor(e, a + b) == DataFor(e, a) + DataFor(e, b)
    decreases |b|
  {
    if b == [] {
      assert a + b == a;
    } else {
      var last := |b| - 1;
      assert a + b == (a + b[..last]) + [b[last]] && b == b[..last] + [b[last]];
      DataConcat(e, a, b[..last]);
      DataSnoc(e, a + b[..last], b[last]);
    }
  }

  /** What callbacks got and what still waits are, in this order, among the messages that came. */
  predicate InOrder(got: seq<Msg>, waiting: seq<Msg>, came: seq<Msg>) {
    Subsequence(got + waiting, came)
  }

  lemma {:induction false} DropOldest(got: seq<Msg>, waiting: seq<Msg>, came: seq<Msg>, n: nat)
    requires InOrder(got, waiting, came)
    ensures InOrder(got, Newest(waiting, n), came)
    decreases |waiting|
  {
    if |waiting| <= n {
    } else {
      var all := got + waiting;
      SubsequenceOfDropped(all, came, |got|);
      assert all[..|got|] + all[|got| + 1..] == got + waiting[1..];
      DropOldest(got, waiting[1..], came, n);
      assert Newest(waiting[1..], n) == Newest(waiting, n);
    }
  }

  lemma {:induction false} DeliverAccounts(
    q: Queues, depth: nat, arrivals: seq<Arrival>, e: int, got: seq<Msg>, came: seq<Msg>)
    requires InOrder(got, QueueOf(q, e), came)
    ensures InOrder(got, QueueOf(Deliver(q, depth, arrivals), e), came + MessagesFor(e, arrivals))
    decreases |arrivals|
  {
    if arrivals == [] {
      assert came + [] == came;
    } else {
      var a, rest := arrivals[|arrivals| - 1], arrivals[..|arrivals| - 1];
      DeliverAccounts(q, depth, rest, e, got, came);
      if a.entity == e {
        var waiting, all := QueueOf(Deliver(q, depth, rest), e), came + MessagesFor(e, rest);
        SubsequenceSnoc(got + waiting, all, a.msg);
        Associate(got, waiting, [a.msg]);
        Associate(came, MessagesFor(e, rest), [a.msg]);
        DropOldest(got, waiting + [a.msg], all + [a.msg], depth);
      } else {
        assert MessagesFor(e, arrivals) == MessagesFor(e, rest);
      }
    }
  }

  lemma TakeAccounts(h: Handle, q: Queues, trace: seq<Call>, e: int, got: seq<Msg>, came: seq<Msg>)
    requires InOrder(got + DataFor(e, trace), QueueOf(q, e), came)
    ensures var t := Take(h, q);
            InOrder(got + DataFor(e, trace + CallOf(h, t.sample)), QueueOf(t.queues, e), came)
  {
    var t, ms, data := Take(h, q), QueueOf(q, h.entity), DataFor(e, trace);
    DataSnoc(e, trace, Call(h.entity, t.sample.data));
    assert trace + [] == trace;
    if t.sample.data.Some? && h.entity == e {
      assert (got + data) + ms == (got + (data + [ms[0]])) + ms[1..];
    } else {
      assert data + [] == data;
    }
  }

  lemma {:induction false} SamplesAccount(hs: seq<Handle>, q: Queues, e: int, got: seq<Msg>, came: seq<Msg>)
    requires InOrder(got, QueueOf(q, e), came)
    ensures InOrder(got + DataFor(e, LetTrace(hs, q)), QueueOf(SampleAll(hs, q).queues, e), came)
    decreases |hs|
  {
    if hs == [] {
      assert got + [] == got;
    } else {
      var last := |hs| - 1;
      var before := SampleAll(hs[..last], q);
      SamplesAccount(hs[..last], q, e, got, came);
      TakeAccounts(hs[last], before.queues, LetTrace(hs[..last], q), e, got, came);
      assert SampleAll(hs, q).samples[..last] == before.samples;
    }
  }

  lemma {:induction false} RunAccounts(
    hs: seq<Handle>, q: Queues, depth: nat, arrivals: seq<seq<Arrival>>, e: int, got: seq<Msg>, came: seq<Msg>)
    requires |arrivals| == |hs| && InOrder(got, QueueOf(q, e), came)
    ensures InOrder(got + DataFor(e, RclcppTrace(hs, q, depth, arrivals)),
                      QueueOf(RclcppRun(hs, q, depth, arrivals).queues, e),
                      came + MessagesFor(e, Flatten(arrivals)))
    decreases |hs|
  {
    if hs == [] {
      assert got + [] == got && came + [] == came;
    } else {
      var last := |hs| - 1;
      var before := RclcppRun(hs[..last], q, depth, arrivals[..last]);
      var trace := RclcppTrace(hs[..last], q, depth, arrivals[..last]);
      var came' := came + MessagesFor(e, Flatten(arrivals[..last]));
      RunAccounts(hs[..last], q, depth, arrivals[..last], e, got, came);
      DeliverAccounts(before.queues, depth, arrivals[last], e, got + DataFor(e, trace), came');
      IncomingSnoc(came, e, arrivals);
      var q' := Deliver(before.queues, depth, arrivals[last]);
      TakeAccounts(hs[last], q', trace, e, got, came' + MessagesFor(e, arrivals[last]));
      assert RclcppRun(hs, q, depth, arrivals).samples[..last] == before.samples;
    }
  }

  /** One spin: what comes in since the last one, the handles as the wait leaves them, and what
      comes in before each handle's turn. */
  datatype SpinStep = SpinStep(
    before: seq<Arrival>, hs: seq<Handle>, semantics: Semantics, arrivals: seq<seq<Arrival>>)
  {
    predicate Valid() { |arrivals| == |hs| }
  }

  function QueuesAfter(q: Queues, depth: nat, s: SpinStep): Queues
    requires s.Valid()
  {
    var q' := Deliver(q, depth, s.before);
    match s.semantics
    case LogicalExecutionTime => Deliver(SampleAll(s.hs, q').queues, depth, Flatten(s.arrivals))
    case RclcppExecutor => RclcppRun(s.hs, q', depth, s.arrivals).queues
  }

  function TraceOf(q: Queues, depth: nat, s: SpinStep): seq<Call>
    requires s.Valid()
  {
    var q' := Deliver(q, depth, s.before);
    match s.semantics
    case LogicalExecutionTime => LetTrace(s.hs, q')
    case RclcppExecutor => RclcppTrace(s.hs, q', depth, s.arrivals)
  }

  function TracesOf(q: Queues, depth: nat, spins: seq<SpinStep>): seq<Call>
    requires forall i :: 0 <= i < |spins| ==> spins[i].Valid()
    decreases |spins|
  {
    if spins == [] then []
    else TraceOf(q, depth, spins[0]) + TracesOf(QueuesAfter(q, depth, spins[0]), depth, spins[1..])
  }

  /** The messages that come for entity `e` over a run of spins. */
  function CameFor(e: int, spins: seq<SpinStep>): seq<Msg>
    decreases |spins|
  {
    if spins == [] then []
    else (MessagesFor(e, spins[0].before) + MessagesFor(e, Flatten(spins[0].arrivals))) + CameFor(e, spins[1..])
  }

  lemma SpinAccounts(q: Queues, depth: nat, s: SpinStep, e: int, got: seq<Msg>, came: seq<Msg>)
    requires s.Valid() && InOrder(got, QueueOf(q, e), came)
    ensures InOrder(got + DataFor(e, TraceOf(q, depth, s)), QueueOf(QueuesAfter(q, depth, s), e),
                      came + (MessagesFor(e, s.before) + MessagesFor(e, Flatten(s.arrivals))))
  {
    var q', came' := Deliver(q, depth, s.before), came + MessagesFor(e, s.before);
    DeliverAccounts(q, depth, s.before, e, got, came);
    Associate(came, MessagesFor(e, s.before), MessagesFor(e, Flatten(s.arrivals)));
    match s.semantics
    case LogicalExecutionTime =>
      SamplesAccount(s.hs, q', e, got, came');
      var left, got' := SampleAll(s.hs, q').queues, got + DataFor(e, LetTrace(s.hs, q'));
      DeliverAccounts(left, depth, Flatten(s.arrivals), e, got', came');
    case RclcppExecutor =>
      RunAccounts(s.hs, q', depth, s.arrivals, e, got, came');
  }

  lemma {:induction false} SpinsAccount(
    q: Queues, depth: nat, spins: seq<SpinStep>, e: int, got: seq<Msg>, came: seq<Msg>)
    requires forall i :: 0 <= i < |spins| ==> spins[i].Valid()
    requires InOrder(got, QueueOf(q, e), came)
    ensures Subsequence(got + DataFor(e, TracesOf(q, depth, spins)), came + CameFor(e, spins))
    decreases |spins|
  {
    if spins == [] {
      DropOldest(got, QueueOf(q, e), came, 0);
      assert Newest(QueueOf(q, e), 0) == [] && came + [] == came;
    } else {
      var s, q' := spins[0], QueuesAfter(q, depth, spins[0]);
      var data := DataFor(e, TraceOf(q, depth, s));
      var more := MessagesFor(e, s.before) + MessagesFor(e, Flatten(s.arrivals));
      SpinAccounts(q, depth, s, e, got, came);
      SpinsAccount(q', depth, spins[1..], e, got + data, came + more);
      DataConcat(e, TraceOf(q, depth, s), TracesOf(q', depth, spins[1..]));
      Associate(got, data, DataFor(e, TracesOf(q', depth, spins[1..])));
      Associate(came, more, CameFor(e, spins[1..]));
    }
  }

  /** Main result: over every run of spins under any mix of semantics, whatever arrives when, the
      messages an entity's callbacks get are among those that came for it, each at most once and in
      the order in which they came. */
  lemma MessagesComeOnceInOrder(depth: nat, spins: seq<SpinStep>, e: int)
    requires forall i :: 0 <= i < |spins| ==> spins[i].Valid()
    ensures Subsequence(DataFor(e, TracesOf(map[], depth, spins)), CameFor(e, spins))
  {
    SpinsAccount(map[], depth, spins, e, [], []);
    EmptyFirst(DataFor(e, TracesOf(map[], depth, spins)));
    EmptyFirst(CameFor(e, spins));
  }

  // ----- nothing is lost but by overflow -----

  /** Main result on one turn: a ready handle that takes data runs its callback with exactly the oldest
      message, and its queue keeps the rest; one that finds no message, or is not ready, runs none
      unless it always runs; a ready timer or guard condition runs without data.  No other queue is
      touched. */
  lemma TurnOf(h: Handle, q: Queues, e: int)
    ensures var t := Take(h, q);
            var waiting := if h.entity in q then q[h.entity] else [];
            var takes := h.Kind() == Subscriptions || h.Kind() == Clients || h.Kind() == Services;
            && (h.dataAvailable && takes && waiting != [] ==>
                  && CallOf(h, t.sample) == [Call(h.entity, Some(waiting[0]))]
                  && QueueOf(t.queues, h.entity) == waiting[1..])
            && (h.dataAvailable && !takes ==> CallOf(h, t.sample) == [Call(h.entity, None)] && t.queues == q)
            && (!h.dataAvailable || (takes && waiting == []) ==>
                  && CallOf(h, t.sample) == (if h.invocation == Always then [Call(h.entity, None)] else [])
                  && t.queues == q)
            && (e != h.entity ==> QueueOf(t.queues, e) == QueueOf(q, e))
  {
  }

  lemma TurnKeeps(h: Handle, q: Queues, trace: seq<Call>, e: int)
    ensures var t := Take(h, q);
            DataFor(e, trace + CallOf(h, t.sample)) + QueueOf(t.queues, e) == DataFor(e, trace) + QueueOf(q, e)
  {
    var t, data := Take(h, q), DataFor(e, trace);
    TurnOf(h, q, e);
    DataSnoc(e, trace, Call(h.entity, t.sample.data));
    assert trace + [] == trace && data + [] == data;
    if h.entity == e && t.sample.data.Some? {
      var ms := QueueOf(q, e);
      assert (data + [ms[0]]) + ms[1..] == data + ms;
    }
  }

  /** At a sampling point nothing is lost: what an entity's callbacks get is the front of its queue and
      the rest still waits. */
  lemma {:induction false} SamplingKeeps(hs: seq<Handle>, q: Queues, e: int)
    ensures DataFor(e, LetTrace(hs, q)) + QueueOf(SampleAll(hs, q).queues, e) == QueueOf(q, e)
    decreases |hs|
  {
    if hs == [] {
    } else {
      var last := |hs| - 1;
      var before := SampleAll(hs[..last], q);
      SamplingKeeps(hs[..last], q, e);
      TurnKeeps(hs[last], before.queues, LetTrace(hs[..last], q), e);
      assert SampleAll(hs, q).samples[..last] == before.samples;
    }
  }

  /** The arrivals fit into the entity's queue. */
  predicate Fits(q: Queues, depth: nat, arrivals: seq<Arrival>, e: int) {
    |QueueOf(q, e)| + |MessagesFor(e, arrivals)| <= depth
  }

  /** What is kept when a batch comes in: everything if it fits, and fewer messages if not. */
  lemma DeliveryKeeps(q: Queues, depth: nat, arrivals: seq<Arrival>, e: int)
    requires |QueueOf(q, e)| <= depth
    ensures var left := QueueOf(Deliver(q, depth, arrivals), e);
            && |left| <= depth
            && (Fits(q, depth, arrivals, e) ==> left == QueueOf(q, e) + MessagesFor(e, arrivals))
            && (!Fits(q, depth, arrivals, e) ==> |left| < |QueueOf(q, e)| + |MessagesFor(e, arrivals)|)
  {
    DeliverIsNewest(q, depth, arrivals, e);
  }

  /** Every batch fits before its turn. */
  predicate AllFit(hs: seq<Handle>, q: Queues, depth: nat, arrivals: seq<seq<Arrival>>, e: int)
    requires |arrivals| == |hs|
    decreases |hs|
  {
    hs == [] ||
    var last := |hs| - 1;
    && AllFit(hs[..last], q, depth, arrivals[..last], e)
    && Fits(RclcppRun(hs[..last], q, depth, arrivals[..last]).queues, depth, arrivals[last], e)
  }

  lemma FlattenSnoc(e: int, arrivals: seq<seq<Arrival>>)
    requires arrivals != []
    ensures var last := |arrivals| - 1;
            MessagesFor(e, Flatten(arrivals)) ==
            MessagesFor(e, Flatten(arrivals[..last])) + MessagesFor(e, arrivals[last])
  {
    MessagesForConcat(e, Flatten(arrivals[..|arrivals| - 1]), arrivals[|arrivals| - 1]);
  }

  lemma Exchange(a: seq<Msg>, b: seq<Msg>, x: seq<Msg>, y: seq<Msg>, more: seq<Msg>)
    requires a + b == x + y
    ensures a + (b + more) == x + (y + more)
  {
    Associate(a, b, more);
    Associate(x, y, more);
  }

  lemma {:induction false} TurnsKeep(hs: seq<Handle>, q: Queues, depth: nat, arrivals: seq<seq<Arrival>>, e: int)
    requires |arrivals| == |hs| && |QueueOf(q, e)| <= depth
    ensures var got := DataFor(e, RclcppTrace(hs, q, depth, arrivals));
            var left := QueueOf(RclcppRun(hs, q, depth, arrivals).queues, e);
            var came := MessagesFor(e, Flatten(arrivals));
            && |left| <= depth
            && (AllFit(hs, q, depth, arrivals, e) ==> got + left == QueueOf(q, e) + came)
            && |got| + |left| <= |QueueOf(q, e)| + |came|
            && (!AllFit(hs, q, depth, arrivals, e) ==> |got| + |left| < |QueueOf(q, e)| + |came|)
    decreases |hs|
  {
    if hs == [] {
      assert QueueOf(q, e) + [] == QueueOf(q, e);
    } else {
      var last := |hs| - 1;
      var before := RclcppRun(hs[..last], q, depth, arrivals[..last]).queues;
      var trace := RclcppTrace(hs[..last], q, depth, arrivals[..last]);
      var q' := Deliver(before, depth, arrivals[last]);
      TurnsKeep(hs[..last], q, depth, arrivals[..last], e);
      DeliveryKeeps(before, depth, arrivals[last], e);
      TurnKeeps(hs[last], q', trace, e);
      FlattenSnoc(e, arrivals);
      OneTurnLater(hs, q, depth, arrivals, e);
      var got := DataFor(e, RclcppTrace(hs, q, depth, arrivals));
      var left := QueueOf(RclcppRun(hs, q, depth, arrivals).queues, e);
      assert got + left == DataFor(e, trace) + QueueOf(q', e);
      assert |got + left| == |DataFor(e, trace) + QueueOf(q', e)|;
      if AllFit(hs, q, depth, arrivals, e) {
        Exchange(DataFor(e, trace), QueueOf(before, e), QueueOf(q, e),
                 MessagesFor(e, Flatten(arrivals[..last])), MessagesFor(e, arrivals[last]));
      }
      LeftFits(hs[last], q', e, depth);
    }
  }

  lemma LeftFits(h: Handle, q: Queues, e: int, depth: nat)
    requires |QueueOf(q, e)| <= depth
    ensures |QueueOf(Take(h, q).queues, e)| <= depth
  {
    TurnOf(h, q, e);
  }

  /** The last turn of a spin. */
  lemma OneTurnLater(hs: seq<Handle>, q: Queues, depth: nat, arrivals: seq<seq<Arrival>>, e: int)
    requires |arrivals| == |hs| && hs != []
    ensures var last := |hs| - 1;
            var before := RclcppRun(hs[..last], q, depth, arrivals[..last]);
            var t := Take(hs[last], Deliver(before.queues, depth, arrivals[last]));
            && RclcppRun(hs, q, depth, arrivals).queues == t.queues
            && RclcppTrace(hs, q, depth, arrivals) ==
               RclcppTrace(hs[..last], q, depth, arrivals[..last]) + CallOf(hs[last], t.sample)
  {
    var last := |hs| - 1;
    assert RclcppRun(hs, q, depth, arrivals).samples[..last]
           == RclcppRun(hs[..last], q, depth, arrivals[..last]).samples;
  }

  /** Nothing overflows the entity's queue in this spin. */
  predicate SpinFits(q: Queues, depth: nat, s: SpinStep, e: int)
    requires s.Valid()
  {
    var q' := Deliver(q, depth, s.before);
    && Fits(q, depth, s.before, e)
    && match s.semantics
       case LogicalExecutionTime => Fits(SampleAll(s.hs, q').queues, depth, Flatten(s.arrivals), e)
       case RclcppExecutor => AllFit(s.hs, q', depth, s.arrivals, e)
  }

  lemma SpinKeeps(q: Queues, depth: nat, s: SpinStep, e: int)
    requires s.Valid() && |QueueOf(q, e)| <= depth
    ensures var got, left := DataFor(e, TraceOf(q, depth, s)), QueueOf(QueuesAfter(q, depth, s), e);
            var came := MessagesFor(e, s.before) + MessagesFor(e, Flatten(s.arrivals));
            && |left| <= depth
            && (SpinFits(q, depth, s, e) ==> got + left == QueueOf(q, e) + came)
            && |got| + |left| <= |QueueOf(q, e)| + |came|
            && (!SpinFits(q, depth, s, e) ==> |got| + |left| < |QueueOf(q, e)| + |came|)
  {
    var q', first, more := Deliver(q, depth, s.before), MessagesFor(e, s.before), MessagesFor(e, Flatten(s.arrivals));
    DeliveryKeeps(q, depth, s.before, e);
    Associate(QueueOf(q, e), first, more);
    match s.semantics
    case LogicalExecutionTime =>
      var sampled, data := SampleAll(s.hs, q').queues, DataFor(e, LetTrace(s.hs, q'));
      SamplingKeeps(s.hs, q', e);
      assert |data + QueueOf(sampled, e)| == |QueueOf(q', e)|;
      DeliveryKeeps(sampled, depth, Flatten(s.arrivals), e);
      Associate(data, QueueOf(sampled, e), more);
    case RclcppExecutor =>
      TurnsKeep(s.hs, q', depth, s.arrivals, e);
  }

  predicate SpinsFit(q: Queues, depth: nat, spins: seq<SpinStep>, e: int)
    requires forall i :: 0 <= i < |spins| ==> spins[i].Valid()
    decreases |spins|
  {
    spins == [] ||
    (SpinFits(q, depth, spins[0], e) && SpinsFit(QueuesAfter(q, depth, spins[0]), depth, spins[1..], e))
  }

  /** The queues after a run of spins. */
  function QueuesAtEnd(q: Queues, depth: nat, spins: seq<SpinStep>): Queues
    requires forall i :: 0 <= i < |spins| ==> spins[i].Valid()
    decreases |spins|
  {
    if spins == [] then q else QueuesAtEnd(QueuesAfter(q, depth, spins[0]), depth, spins[1..])
  }

  lemma {:induction false} SpinsKeep(q: Queues, depth: nat, spins: seq<SpinStep>, e: int)
    requires forall i :: 0 <= i < |spins| ==> spins[i].Valid()
    requires |QueueOf(q, e)| <= depth
    ensures var got, left := DataFor(e, TracesOf(q, depth, spins)), QueueOf(QueuesAtEnd(q, depth, spins), e);
            && (SpinsFit(q, depth, spins, e) ==> got + left == QueueOf(q, e) + CameFor(e, spins))
            && |got| + |left| <= |QueueOf(q, e)| + |CameFor(e, spins)|
            && (!SpinsFit(q, depth, spins, e) ==> |got| + |left| < |QueueOf(q, e)| + |CameFor(e, spins)|)
    decreases |spins|
  {
    if spins == [] {
      assert QueueOf(q, e) + [] == QueueOf(q, e);
    } else {
      var s, q' := spins[0], QueuesAfter(q, depth, spins[0]);
      var data := DataFor(e, TraceOf(q, depth, s));
      var more := MessagesFor(e, s.before) + MessagesFor(e, Flatten(s.arrivals));
      var rest, later := DataFor(e, TracesOf(q', depth, spins[1..])), CameFor(e, spins[1..]);
      SpinKeeps(q, depth, s, e);
      SpinsKeep(q', depth, spins[1..], e);
      DataConcat(e, TraceOf(q, depth, s), TracesOf(q', depth, spins[1..]));
      Associate(data, rest, QueueOf(QueuesAtEnd(q', depth, spins[1..]), e));
      Associate(data, QueueOf(q', e), later);
      Associate(QueueOf(q, e), more, later);
    }
  }

  /** Main result: over every run of spins under any mix of semantics, what an entity's callbacks got
      and what still waits are together exactly what came for it, in order, exactly if nothing
      overflowed its queue. */
  lemma NothingIsLostIff(depth: nat, spins: seq<SpinStep>, e: int)
    requires forall i :: 0 <= i < |spins| ==> spins[i].Valid()
    ensures DataFor(e, TracesOf(map[], depth, spins)) + QueueOf(QueuesAtEnd(map[], depth, spins), e)
            == CameFor(e, spins)
            <==> SpinsFit(map[], depth, spins, e)
  {
    var got, left := DataFor(e, TracesOf(map[], depth, spins)), QueueOf(QueuesAtEnd(map[], depth, spins), e);
    SpinsKeep(map[], depth, spins, e);
    EmptyFirst(CameFor(e, spins));
    assert |got + left| == |got| + |left|;
  }

  /** In particular nothing is lost while fewer messages come than the queue has room for. */
  lemma {:induction false} FewMessagesFit(q: Queues, depth: nat, spins: seq<SpinStep>, e: int)
    requires forall i :: 0 <= i < |spins| ==> spins[i].Valid()
    requires |QueueOf(q, e)| + |CameFor(e, spins)| <= depth
    ensures SpinsFit(q, depth, spins, e)
    decreases |spins|
  {
    if spins == [] {
    } else {
      var s := spins[0];
      FewMessagesFitSpin(q, depth, s, e);
      SpinKeeps(q, depth, s, e);
      FewMessagesFit(QueuesAfter(q, depth, s), depth, spins[1..], e);
    }
  }

  lemma FewMessagesFitSpin(q: Queues, depth: nat, s: SpinStep, e: int)
    requires s.Valid()
    requires |QueueOf(q, e)| + |MessagesFor(e, s.before)| + |MessagesFor(e, Flatten(s.arrivals))| <= depth
    ensures SpinFits(q, depth, s, e)
  {
    var q' := Deliver(q, depth, s.before);
    DeliveryKeeps(q, depth, s.before, e);
    SamplingKeeps(s.hs, q', e);
    assert |DataFor(e, LetTrace(s.hs, q')) + QueueOf(SampleAll(s.hs, q').queues, e)| == |QueueOf(q', e)|;
    FewMessagesFitTurns(s.hs, q', depth, s.arrivals, e);
  }

  lemma {:induction false} FewMessagesFitTurns(
    hs: seq<Handle>, q: Queues, depth: nat, arrivals: seq<seq<Arrival>>, e: int)
    requires |arrivals| == |hs| && |QueueOf(q, e)| + |MessagesFor(e, Flatten(arrivals))| <= depth
    ensures AllFit(hs, q, depth, arrivals, e)
    decreases |hs|
  {
    if hs == [] {
    } else {
      var last := |hs| - 1;
      FlattenSnoc(e, arrivals);
      FewMessagesFitTurns(hs[..last], q, depth, arrivals[..last], e);
      TurnsKeep(hs[..last], q, depth, arrivals[..last], e);
    }
  }
}
