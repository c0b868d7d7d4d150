/**
 The result pipeline as a state machine over its atomic steps. Any number of producer
 threads push results or nonce bundles under one mutex and poke a coalescing wake-up;
 the loop thread consumes the wake-up, swaps both queues out under the same mutex,
 delivers the results and hands the bundles to a worker, whose results are delivered on
 the loop thread when it is done.
 */
module ResultPipeline {
  import opened Words
  import opened Jobs
  import opened Rehash

  datatype Item = ResultItem(result: JobResult) | BundleItem(bundle: Bundle)

  datatype Stage = Acquired | Pushed | Sent

  /** Who holds the mutex; a producer holds it from before its push until after its wake-up. */
  datatype Mutex = Free | HeldByProducer(item: Item, stage: Stage) | HeldByLoop

  /** Where the loop thread is, with the local lists of its swap. */
  datatype Loop =
    | Waiting
    | Woken
    | Locked
    | SwappedBundles(bundles: seq<Bundle>)
    | SwappedBoth(bundles: seq<Bundle>, results: seq<JobResult>)
    | Delivering(bundles: seq<Bundle>, results: seq<JobResult>)
    | Completing(baton: nat)

  datatype Phase = Working | Returning | Deleted

  datatype Baton = Baton(done: seq<Done>, todo: seq<Bundle>, results: seq<JobResult>, errors: Uint32, phase: Phase)

  datatype Source = Direct | FromBaton(baton: nat)

  datatype Delivery = Delivery(source: Source, result: JobResult)

  /** The queues, the wake-up and the threads, with the histories of pushes and deliveries. */
  datatype State = State(
    mutex: Mutex, results: seq<JobResult>, bundles: seq<Bundle>, wakeUp: bool, loop: Loop, batons: seq<Baton>,
    pushedResults: seq<JobResult>, pushedBundles: seq<Bundle>, delivered: seq<Delivery>)

  const INITIAL := State(Free, [], [], false, Waiting, [], [], [], [])

  datatype Action =
    | Acquire(item: Item) | Push | Send | Release
    | Wake | Lock | SwapBundles | SwapResults | Unlock | Deliver | FinishDelivery
    | HashBundle(baton: nat, ready: bool) | StartReturn(baton: nat) | DeliverReturned | DeleteBaton

  predicate Enabled(s: State, a: Action) {
    match a
    case Acquire(_) => s.mutex.Free?
    case Push => s.mutex.HeldByProducer? && s.mutex.stage.Acquired?
    case Send => s.mutex.HeldByProducer? && s.mutex.stage.Pushed?
    case Release => s.mutex.HeldByProducer? && s.mutex.stage.Sent?
    case Wake => s.loop.Waiting? && s.wakeUp
    case Lock => s.loop.Woken? && s.mutex.Free?
    case SwapBundles => s.loop.Locked?
    case SwapResults => s.loop.SwappedBundles?
    case Unlock => s.loop.SwappedBoth?
    case Deliver => s.loop.Delivering? && s.loop.results != []
    case FinishDelivery => s.loop.Delivering? && s.loop.results == []
    case HashBundle(i, _) => i < |s.batons| && s.batons[i].phase.Working? && s.batons[i].todo != []
    case StartReturn(i) => s.loop.Waiting? && i < |s.batons| && s.batons[i].phase.Working? && s.batons[i].todo == []
    case DeliverReturned => s.loop.Completing? && s.loop.baton < |s.batons| && s.batons[s.loop.baton].results != []
    case DeleteBaton => s.loop.Completing? && s.loop.baton < |s.batons| && s.batons[s.loop.baton].results == []
  }

  function AfterHashing(rig: Rig, b: Baton, ready: bool): Baton
    requires b.todo != []
  {
    var bundle := b.todo[0];
    b.(done := b.done + [Done(bundle, ready)],
       todo := b.todo[1..],
       results := b.results + Accepted(rig, bundle, ready),
       errors := (b.errors + Rejected(rig, bundle, ready)) % 0x1_0000_0000)
  }

  function Step(rig: Rig, s: State, a: Action): State
    requires Enabled(s, a)
  {
    match a
    case Acquire(item) => s.(mutex := HeldByProducer(item, Acquired))
    case Push =>
      var s' := s.(mutex := HeldByProducer(s.mutex.item, Pushed));
      (match s.mutex.item
       case ResultItem(r) => s'.(results := s.results + [r], pushedResults := s.pushedResults + [r])
       case BundleItem(b) => s'.(bundles := s.bundles + [b], pushedBundles := s.pushedBundles + [b]))
    case Send => s.(mutex := HeldByProducer(s.mutex.item, Sent), wakeUp := true)
    case Release => s.(mutex := Free)
    case Wake => s.(wakeUp := false, loop := Woken)
    case Lock => s.(mutex := HeldByLoop, loop := Locked)
    case SwapBundles => s.(bundles := [], loop := SwappedBundles(s.bundles))
    case SwapResults => s.(results := [], loop := SwappedBoth(s.loop.bundles, s.results))
    case Unlock => s.(mutex := Free, loop := Delivering(s.loop.bundles, s.loop.results))
    case Deliver =>
      s.(delivered := s.delivered + [Delivery(Direct, s.loop.results[0])],
         loop := Delivering(s.loop.bundles, s.loop.results[1..]))
    case FinishDelivery =>
      if s.loop.bundles == [] then s.(loop := Waiting)
      else s.(loop := Waiting, batons := s.batons + [Baton([], s.loop.bundles, [], 0, Working)])
    case HashBundle(i, ready) => s.(batons := s.batons[i := AfterHashing(rig, s.batons[i], ready)])
    case StartReturn(i) => s.(loop := Completing(i), batons := s.batons[i := s.batons[i].(phase := Returning)])
    case DeliverReturned =>
      var i := s.loop.baton;
      var b := s.batons[i];
      s.(delivered := s.delivered + [Delivery(FromBaton(i), b.results[0])],
         batons := s.batons[i := b.(results := b.results[1..])])
    case DeleteBaton =>
      var i := s.loop.baton;
      s.(loop := Waiting, batons := s.batons[i := s.batons[i].(phase := Deleted)])
  }

  /** s is reached by performing the actions in order, each one when it is enabled. */
  ghost predicate Reaches(rig: Rig, actions: seq<Action>, s: State) {
    if actions == [] then s == INITIAL
    else
      var init, last := actions[..|actions| - 1], actions[|actions| - 1];
      exists before :: Reaches(rig, init, before) && Enabled(before, last) && Step(rig, before, last) == s
  }

  // ---------------------------------------------------------------- what every run keeps

  /** The delivered results that came from one source, in delivery order. */
  function From(delivered: seq<Delivery>, source: Source): seq<JobResult> {
    if delivered == [] then []
    else
      var last := delivered[|delivered| - 1];
      From(delivered[..|delivered| - 1], source) + if last.source == source then [last.result] else []
  }

  function LocalResults(loop: Loop): seq<JobResult> {
    match loop
    case SwappedBoth(_, results) => results
    case Delivering(_, results) => results
    case _ => []
  }

  function LocalBundles(loop: Loop): seq<Bundle> {
    match loop
    case SwappedBundles(bundles) => bundles
    case SwappedBoth(bundles, _) => bundles
    case Delivering(bundles, _) => bundles
    case _ => []
  }

  /** All bundles ever handed to batons, baton by baton. */
  function Assigned(batons: seq<Baton>): seq<Bundle> {
    if batons == [] then []
    else
      var last := batons[|batons| - 1];
      Assigned(batons[..|batons| - 1]) + Bundles(last.done) + last.todo
  }

  /** Delivered, then being delivered, then queued: together the pushed results in lock order. */
  ghost predicate ResultsInOrder(s: State) {
    From(s.delivered, Direct) + LocalResults(s.loop) + s.results == s.pushedResults
  }

  ghost predicate BundlesInOrder(s: State) {
    Assigned(s.batons) + LocalBundles(s.loop) + s.bundles == s.pushedBundles
  }

  /** A baton's delivered and waiting results are those of its finished bundles, in order. */
  ghost predicate Ledger(rig: Rig, out: seq<JobResult>, b: Baton) {
    && out + b.results == AcceptedAll(rig, b.done)
    && b.errors == RejectedAll(rig, b.done) % 0x1_0000_0000
  }

  ghost predicate BatonInOrder(rig: Rig, s: State, i: nat)
    requires i < |s.batons|
  {
    var b := s.batons[i];
    && Ledger(rig, From(s.delivered, FromBaton(i)), b)
    && (b.phase.Returning? <==> s.loop == Completing(i))
    && (!b.phase.Working? ==> b.todo == [])
    && (b.phase.Deleted? ==> b.results == [])
  }

  /** A queued item always has a wake-up pending, a send still to come, or a swap still to come. */
  ghost predicate NoLostWakeUp(s: State) {
    var sendToCome := s.wakeUp || (s.mutex.HeldByProducer? && s.mutex.stage.Pushed?);
    && (s.bundles != [] ==> sendToCome || s.loop.Woken? || s.loop.Locked?)
    && (s.results != [] ==> sendToCome || s.loop.Woken? || s.loop.Locked? || s.loop.SwappedBundles?)
  }

  ghost predicate Consistent(s: State) {
    && (s.mutex.HeldByLoop? <==> s.loop.Locked? || s.loop.SwappedBundles? || s.loop.SwappedBoth?)
    && (s.loop.Completing? ==> s.loop.baton < |s.batons|)
    && forall k :: 0 <= k < |s.delivered| && s.delivered[k].source.FromBaton? ==>
         s.delivered[k].source.baton < |s.batons|
  }

  ghost predicate Inv(rig: Rig, s: State) {
    && ResultsInOrder(s)
    && BundlesInOrder(s)
    && NoLostWakeUp(s)
    && Consistent(s)
    && forall i :: 0 <= i < |s.batons| ==> BatonInOrder(rig, s, i)
  }

  lemma FromAppend(delivered: seq<Delivery>, d: Delivery, source: Source)
    ensures From(delivered + [d], source)
         == if d.source == source then From(delivered, source) + [d.result] else From(delivered, source)
  {
    assert (delivered + [d])[..|delivered|] == delivered;
  }

  lemma {:induction false} FromNobody(delivered: seq<Delivery>, source: Source)
    requires forall k :: 0 <= k < |delivered| ==> delivered[k].source != source
    ensures From(delivered, source) == []
  {
    if delivered != [] {
      FromNobody(delivered[..|delivered| - 1], source);
    }
  }

  lemma {:induction false} AssignedUpdate(batons: seq<Baton>, i: nat, b: Baton)
    requires i < |batons|
    requires Bundles(b.done) + b.todo == Bundles(batons[i].done) + batons[i].todo
    ensures Assigned(batons[i := b]) == Assigned(batons)
  {
    var n := |batons| - 1;
    if i < n {
      assert batons[i := b][..n] == batons[..n][i := b];
      AssignedUpdate(batons[..n], i, b);
    } else {
      assert batons[i := b][..n] == batons[..n];
      assert Assigned(batons[..n]) + Bundles(b.done) + b.todo == Assigned(batons[..n]) + (Bundles(b.done) + b.todo);
      assert Assigned(batons) == Assigned(batons[..n]) + (Bundles(batons[i].done) + batons[i].todo);
    }
  }

  lemma HashedKeepsOrder(rig: Rig, b: Baton, ready: bool)
    requires b.todo != []
    ensures var b' := AfterHashing(rig, b, ready);
      && Bundles(b'.done) + b'.todo == Bundles(b.done) + b.todo
      && AcceptedAll(rig, b'.done) == AcceptedAll(rig, b.done) + Accepted(rig, b.todo[0], ready)
      && RejectedAll(rig, b'.done) == RejectedAll(rig, b.done) + Rejected(rig, b.todo[0], ready)
  {
    var b' := AfterHashing(rig, b, ready);
    assert b'.done[..|b.done|] == b.done;
    assert Bundles(b'.done) == Bundles(b.done) + [b.todo[0]];
  }

  lemma DeliverKeepsResults(rig: Rig, s: State)
    requires Enabled(s, Deliver) && ResultsInOrder(s)
    ensures ResultsInOrder(Step(rig, s, Deliver))
  {
    hide From;
    var local := s.loop.results;
    FromAppend(s.delivered, Delivery(Direct, local[0]), Direct);
    assert From(s.delivered, Direct) + [local[0]] + local[1..] == From(s.delivered, Direct) + local;
  }

  lemma PushKeepsResults(rig: Rig, s: State)
    requires Enabled(s, Push) && ResultsInOrder(s)
    ensures ResultsInOrder(Step(rig, s, Push))
  {
    var ahead := From(s.delivered, Direct) + LocalResults(s.loop);
    match s.mutex.item
    case ResultItem(r) => assert ahead + (s.results + [r]) == ahead + s.results + [r];
    case BundleItem(_) =>
  }

  lemma SwapKeepsResults(rig: Rig, s: State)
    requires Enabled(s, SwapResults) && ResultsInOrder(s)
    ensures ResultsInOrder(Step(rig, s, SwapResults))
  {
    var out := From(s.delivered, Direct);
    assert out + [] + s.results == out + s.results + [];
  }

  lemma StepKeepsResults(rig: Rig, s: State, a: Action)
    requires Enabled(s, a) && ResultsInOrder(s)
    ensures ResultsInOrder(Step(rig, s, a))
  {
    match a
    case Push => PushKeepsResults(rig, s);
    case SwapResults => SwapKeepsResults(rig, s);
    case Deliver => DeliverKeepsResults(rig, s);
    case DeliverReturned =>
      var i := s.loop.baton;
      FromAppend(s.delivered, Delivery(FromBaton(i), s.batons[i].results[0]), Direct);
    case _ =>
  }

  lemma FinishKeepsBundles(rig: Rig, s: State)
    requires Enabled(s, FinishDelivery) && BundlesInOrder(s)
    ensures BundlesInOrder(Step(rig, s, FinishDelivery))
  {
    hide Assigned;
    AssignedToNew(s.batons, s.loop.bundles);
    var all := Assigned(s.batons);
    assert s.loop.bundles == [] ==> all + [] == all;
  }

  lemma AssignedToNew(batons: seq<Baton>, bundles: seq<Bundle>)
    ensures Assigned(batons + [Baton([], bundles, [], 0, Working)]) == Assigned(batons) + bundles
  {
    assert (batons + [Baton([], bundles, [], 0, Working)])[..|batons|] == batons;
    assert Assigned(batons) + [] == Assigned(batons);
  }

  lemma QueueKeepsBundles(rig: Rig, s: State, a: Action)
    requires Enabled(s, a) && BundlesInOrder(s) && (a.Push? || a.SwapBundles?)
    ensures BundlesInOrder(Step(rig, s, a))
  {
    var ahead := Assigned(s.batons) + LocalBundles(s.loop);
    match a
    case Push =>
      if s.mutex.item.BundleItem? {
        assert ahead + (s.bundles + [s.mutex.item.bundle]) == ahead + s.bundles + [s.mutex.item.bundle];
      }
    case SwapBundles => assert Assigned(s.batons) + [] + s.bundles == Assigned(s.batons) + s.bundles + [];
  }

  lemma BatonStepKeepsBundles(rig: Rig, s: State, a: Action)
    requires Enabled(s, a) && BundlesInOrder(s)
    requires a.HashBundle? || a.StartReturn? || a.DeliverReturned? || a.DeleteBaton?
    ensures BundlesInOrder(Step(rig, s, a))
  {
    match a
    case HashBundle(i, ready) =>
      HashedKeepsOrder(rig, s.batons[i], ready);
      AssignedUpdate(s.batons, i, AfterHashing(rig, s.batons[i], ready));
    case StartReturn(i) => AssignedUpdate(s.batons, i, s.batons[i].(phase := Returning));
    case DeliverReturned =>
      var i := s.loop.baton;
      AssignedUpdate(s.batons, i, s.batons[i].(results := s.batons[i].results[1..]));
    case DeleteBaton => AssignedUpdate(s.batons, s.loop.baton, s.batons[s.loop.baton].(phase := Deleted));
  }

  lemma StepKeepsBundles(rig: Rig, s: State, a: Action)
    requires Enabled(s, a) && BundlesInOrder(s)
    ensures BundlesInOrder(Step(rig, s, a))
  {
    match a
    case Push => QueueKeepsBundles(rig, s, a);
    case SwapBundles => QueueKeepsBundles(rig, s, a);
    case FinishDelivery => FinishKeepsBundles(rig, s);
    case HashBundle(_, _) => BatonStepKeepsBundles(rig, s, a);
    case StartReturn(_) => BatonStepKeepsBundles(rig, s, a);
    case DeliverReturned => BatonStepKeepsBundles(rig, s, a);
    case DeleteBaton => BatonStepKeepsBundles(rig, s, a);
    case _ =>
  }

  lemma StepKeepsWakeUp(rig: Rig, s: State, a: Action)
    requires Enabled(s, a) && NoLostWakeUp(s) && Consistent(s)
    ensures NoLostWakeUp(Step(rig, s, a)) && Consistent(Step(rig, s, a))
  {
  }

  lemma HashKeepsLedger(rig: Rig, out: seq<JobResult>, b: Baton, ready: bool)
    requires b.todo != [] && Ledger(rig, out, b)
    ensures Ledger(rig, out, AfterHashing(rig, b, ready))
  {
    hide AcceptedAll, RejectedAll, Accepted, Rejected;
    HashedKeepsOrder(rig, b, ready);
    AddModulo(RejectedAll(rig, b.done), Rejected(rig, b.todo[0], ready), 0x1_0000_0000);
    var more := Accepted(rig, b.todo[0], ready);
    assert out + (b.results + more) == out + b.results + more;
  }

  lemma ReturnKeepsLedger(rig: Rig, out: seq<JobResult>, b: Baton)
    requires b.results != [] && Ledger(rig, out, b)
    ensures Ledger(rig, out + [b.results[0]], b.(results := b.results[1..]))
  {
    assert out + [b.results[0]] + b.results[1..] == out + b.results;
  }

  lemma HashKeepsBaton(rig: Rig, s: State, i: nat, ready: bool, j: nat)
    requires Enabled(s, HashBundle(i, ready)) && j < |s.batons| && BatonInOrder(rig, s, j)
    ensures BatonInOrder(rig, Step(rig, s, HashBundle(i, ready)), j)
  {
    if j == i {
      HashKeepsLedger(rig, From(s.delivered, FromBaton(i)), s.batons[i], ready);
    }
  }

  lemma ReturnKeepsBaton(rig: Rig, s: State, j: nat)
    requires Enabled(s, DeliverReturned) && j < |s.batons| && BatonInOrder(rig, s, j)
    ensures BatonInOrder(rig, Step(rig, s, DeliverReturned), j)
  {
    hide From, Ledger;
    var i := s.loop.baton;
    FromAppend(s.delivered, Delivery(FromBaton(i), s.batons[i].results[0]), FromBaton(j));
    if j == i {
      ReturnKeepsLedger(rig, From(s.delivered, FromBaton(i)), s.batons[i]);
    }
  }

  lemma NewBatonInOrder(rig: Rig, s: State, j: nat)
    requires Enabled(s, FinishDelivery) && Consistent(s)
    requires j < |s.batons| ==> BatonInOrder(rig, s, j)
    requires j < |Step(rig, s, FinishDelivery).batons|
    ensures BatonInOrder(rig, Step(rig, s, FinishDelivery), j)
  {
    if j == |s.batons| {
      FromNobody(s.delivered, FromBaton(j));
    }
  }

  lemma DeliverKeepsBaton(rig: Rig, s: State, j: nat)
    requires Enabled(s, Deliver) && j < |s.batons| && BatonInOrder(rig, s, j)
    ensures BatonInOrder(rig, Step(rig, s, Deliver), j)
  {
    hide From, Ledger;
    FromAppend(s.delivered, Delivery(Direct, s.loop.results[0]), FromBaton(j));
  }

  lemma ThreadStepKeepsBaton(rig: Rig, s: State, a: Action, j: nat)
    requires Enabled(s, a) && j < |s.batons| && BatonInOrder(rig, s, j)
    requires !a.Deliver? && !a.FinishDelivery? && !a.HashBundle? && !a.DeliverReturned?
    ensures BatonInOrder(rig, Step(rig, s, a), j)
  {
  }

  lemma StepKeepsBaton(rig: Rig, s: State, a: Action, j: nat)
    requires Enabled(s, a) && Consistent(s)
    requires j < |s.batons| ==> BatonInOrder(rig, s, j)
    requires j < |Step(rig, s, a).batons|
    ensures BatonInOrder(rig, Step(rig, s, a), j)
  {
    hide BatonInOrder;
    match a
    case Deliver => DeliverKeepsBaton(rig, s, j);
    case FinishDelivery => NewBatonInOrder(rig, s, j);
    case HashBundle(i, ready) => HashKeepsBaton(rig, s, i, ready, j);
    case DeliverReturned => ReturnKeepsBaton(rig, s, j);
    case _ => ThreadStepKeepsBaton(rig, s, a, j);
  }

  lemma StepKeepsInv(rig: Rig, s: State, a: Action)
    requires Enabled(s, a) && Inv(rig, s)
    ensures Inv(rig, Step(rig, s, a))
  {
    StepKeepsResults(rig, s, a);
    StepKeepsBundles(rig, s, a);
    StepKeepsWakeUp(rig, s, a);
    forall j | 0 <= j < |Step(rig, s, a).batons| ensures BatonInOrder(rig, Step(rig, s, a), j) {
      StepKeepsBaton(rig, s, a, j);
    }
  }

  /** Every interleaving of producers, loop steps and workers keeps the whole invariant. */
  lemma {:induction false} EveryRunKeepsInv(rig: Rig, actions: seq<Action>, s: State)
    requires Reaches(rig, actions, s)
    ensures Inv(rig, s)
  {
    if actions != [] {
      var init, last := actions[..|actions| - 1], actions[|actions| - 1];
      var before :| Reaches(rig, init, before) && Enabled(before, last) && Step(rig, before, last) == s;
      EveryRunKeepsInv(rig, init, before);
      StepKeepsInv(rig, before, last);
    }
  }

  // ---------------------------------------------------------------- conservation of nonces

  function AllDone(batons: seq<Baton>): seq<Done> {
    if batons == [] then [] else AllDone(batons[..|batons| - 1]) + batons[|batons| - 1].done
  }

  /** Bundles handed to a baton that its worker has not re-hashed yet. */
  function AllTodo(batons: seq<Baton>): seq<Bundle> {
    if batons == [] then [] else AllTodo(batons[..|batons| - 1]) + batons[|batons| - 1].todo
  }

  /** Results of batons: already delivered, and still waiting in the baton. */
  function Returned(delivered: seq<Delivery>): nat {
    if delivered == [] then 0
    else
      Returned(delivered[..|delivered| - 1]) + if delivered[|delivered| - 1].source.FromBaton? then 1 else 0
  }

  function WaitingResults(batons: seq<Baton>): nat {
    if batons == [] then 0 else WaitingResults(batons[..|batons| - 1]) + |batons[|batons| - 1].results|
  }

  function DeliveredBy(delivered: seq<Delivery>, n: nat): nat {
    if n == 0 then 0 else DeliveredBy(delivered, n - 1) + |From(delivered, FromBaton(n - 1))|
  }

  lemma {:induction false} NonceCountAdds(a: seq<Bundle>, b: seq<Bundle>)
    ensures NonceCount(a + b) == NonceCount(a) + NonceCount(b)
  {
    if b == [] {
      assert a + b == a;
    } else {
      assert (a + b)[..|a + b| - 1] == a + b[..|b| - 1];
      NonceCountAdds(a, b[..|b| - 1]);
    }
  }

  lemma {:induction false} RejectedAdds(rig: Rig, a: seq<Done>, b: seq<Done>)
    ensures RejectedAll(rig, a + b) == RejectedAll(rig, a) + RejectedAll(rig, b)
  {
    if b == [] {
      assert a + b == a;
    } else {
      assert (a + b)[..|a + b| - 1] == a + b[..|b| - 1];
      RejectedAdds(rig, a, b[..|b| - 1]);
    }
  }

  /** Each delivery from a known baton is counted for exactly one baton. */
  lemma {:induction false} ReturnedByBaton(delivered: seq<Delivery>, n: nat)
    requires forall k :: 0 <= k < |delivered| && delivered[k].source.FromBaton? ==> delivered[k].source.baton < n
    ensures Returned(delivered) == DeliveredBy(delivered, n)
  {
    if delivered == [] {
      NoneDelivered(n);
    } else {
      ReturnedByBaton(delivered[..|delivered| - 1], n);
      OneMoreDelivery(delivered, n);
    }
  }

  lemma {:induction false} NoneDelivered(n: nat)
    ensures DeliveredBy([], n) == 0
  {
    if n > 0 {
      NoneDelivered(n - 1);
    }
  }

  lemma {:induction false} OneMoreDelivery(delivered: seq<Delivery>, n: nat)
    requires delivered != []
    ensures var source := delivered[|delivered| - 1].source;
      DeliveredBy(delivered, n) == DeliveredBy(delivered[..|delivered| - 1], n)
                                 + if source.FromBaton? && source.baton < n then 1 else 0
  {
    if n > 0 {
      OneMoreDelivery(delivered, n - 1);
    }
  }

  /** One baton: what it was given is what it delivered, holds, rejected and has still to do. */
  lemma BatonBalance(rig: Rig, s: State, i: nat)
    requires i < |s.batons| && BatonInOrder(rig, s, i)
    ensures var b := s.batons[i];
      NonceCount(Bundles(b.done)) == |From(s.delivered, FromBaton(i))| + |b.results| + RejectedAll(rig, b.done)
  {
    hide From, NonceCount, RejectedAll, AcceptedAll, Bundles;
    WorkConservation(rig, s.batons[i].done);
  }

  lemma AssignedCount(batons: seq<Baton>)
    requires batons != []
    ensures var b := batons[|batons| - 1];
      NonceCount(Assigned(batons))
      == NonceCount(Assigned(batons[..|batons| - 1])) + NonceCount(Bundles(b.done)) + NonceCount(b.todo)
  {
    hide NonceCount, Bundles;
    var b := batons[|batons| - 1];
    NonceCountAdds(Assigned(batons[..|batons| - 1]) + Bundles(b.done), b.todo);
    NonceCountAdds(Assigned(batons[..|batons| - 1]), Bundles(b.done));
  }

  lemma WorkCount(rig: Rig, batons: seq<Baton>)
    requires batons != []
    ensures var init, b := batons[..|batons| - 1], batons[|batons| - 1];
      && RejectedAll(rig, AllDone(batons)) == RejectedAll(rig, AllDone(init)) + RejectedAll(rig, b.done)
      && NonceCount(AllTodo(batons)) == NonceCount(AllTodo(init)) + NonceCount(b.todo)
      && WaitingResults(batons) == WaitingResults(init) + |b.results|
  {
    hide NonceCount, RejectedAll;
    var init, b := batons[..|batons| - 1], batons[|batons| - 1];
    NonceCountAdds(AllTodo(init), b.todo);
    RejectedAdds(rig, AllDone(init), b.done);
  }

  lemma {:induction false} BatonConservation(rig: Rig, s: State, n: nat)
    requires n <= |s.batons| && forall i :: 0 <= i < n ==> BatonInOrder(rig, s, i)
    ensures NonceCount(Assigned(s.batons[..n]))
         == DeliveredBy(s.delivered, n) + WaitingResults(s.batons[..n])
          + RejectedAll(rig, AllDone(s.batons[..n])) + NonceCount(AllTodo(s.batons[..n]))
  {
    hide NonceCount, Assigned, AllDone, AllTodo, WaitingResults, RejectedAll, BatonInOrder, From, Bundles;
    if n == 0 {
      assert s.batons[..0] == [];
      NoBatons(rig);
    } else {
      assert s.batons[..n][..n - 1] == s.batons[..n - 1];
      BatonConservation(rig, s, n - 1);
      AssignedCount(s.batons[..n]);
      WorkCount(rig, s.batons[..n]);
      BatonBalance(rig, s, n - 1);
    }
  }

  lemma NoBatons(rig: Rig)
    ensures NonceCount(Assigned([])) == 0 && WaitingResults([]) == 0
    ensures RejectedAll(rig, AllDone([])) == 0 && NonceCount(AllTodo([])) == 0
  {
  }

  /** The errors that the batons have counted, each one modulo 2^32. */
  function ErrorTotal(batons: seq<Baton>): nat {
    if batons == [] then 0 else ErrorTotal(batons[..|batons| - 1]) + batons[|batons| - 1].errors
  }

  /** How often the counters have wrapped around. */
  function Wraps(rig: Rig, batons: seq<Baton>): nat {
    if batons == [] then 0
    else Wraps(rig, batons[..|batons| - 1]) + RejectedAll(rig, batons[|batons| - 1].done) / 0x1_0000_0000
  }

  lemma {:induction false} ErrorsAreRejected(rig: Rig, s: State, n: nat)
    requires n <= |s.batons| && forall i :: 0 <= i < n ==> BatonInOrder(rig, s, i)
    ensures var batons := s.batons[..n];
      RejectedAll(rig, AllDone(batons)) == ErrorTotal(batons) + 0x1_0000_0000 * Wraps(rig, batons)
  {
    if n == 0 {
      assert s.batons[..0] == [];
    } else {
      assert s.batons[..n][..n - 1] == s.batons[..n - 1];
      ErrorsAreRejected(rig, s, n - 1);
      WorkCount(rig, s.batons[..n]);
      ErrorsOfBaton(rig, s, n - 1);
      hide RejectedAll, AllDone, BatonInOrder;
    }
  }

  lemma ErrorsOfBaton(rig: Rig, s: State, i: nat)
    requires i < |s.batons| && BatonInOrder(rig, s, i)
    ensures var rejected := RejectedAll(rig, s.batons[i].done);
      rejected == s.batons[i].errors + 0x1_0000_0000 * (rejected / 0x1_0000_0000)
  {
  }

  /** Every submitted nonce is accounted for by what the objects hold, up to wraps of the error counters. */
  lemma NonceBalance(rig: Rig, actions: seq<Action>, s: State)
    requires Reaches(rig, actions, s)
    ensures NonceCount(s.pushedBundles) == Accounted(s) + 0x1_0000_0000 * Wraps(rig, s.batons)
  {
    EveryRunKeepsInv(rig, actions, s);
    assert s.batons[..|s.batons|] == s.batons;
    BatonConservation(rig, s, |s.batons|);
    ReturnedByBaton(s.delivered, |s.batons|);
    ErrorsAreRejected(rig, s, |s.batons|);
    NonceCountAdds(Assigned(s.batons) + LocalBundles(s.loop), s.bundles);
    NonceCountAdds(Assigned(s.batons), LocalBundles(s.loop));
    hide NonceCount, Assigned, BatonInOrder, Reaches, RejectedAll, ErrorTotal, Wraps, Returned, WaitingResults;
  }

  /**
   Results delivered from batons, results waiting in them, their error counters, and the nonces
   that are still queued, swapped out or waiting in a baton.
   */
  function Accounted(s: State): nat {
    Returned(s.delivered) + WaitingResults(s.batons) + ErrorTotal(s.batons)
    + NonceCount(AllTodo(s.batons)) + NonceCount(LocalBundles(s.loop)) + NonceCount(s.bundles)
  }

  /** In every reachable state each submitted nonce is accounted for, as far as 32-bit counters can tell. */
  lemma NonceConservation(rig: Rig, actions: seq<Action>, s: State)
    requires Reaches(rig, actions, s)
    ensures NonceCount(s.pushedBundles) % 0x1_0000_0000 == Accounted(s) % 0x1_0000_0000
    ensures NonceCount(s.pushedBundles) < 0x1_0000_0000 ==> NonceCount(s.pushedBundles) == Accounted(s)
  {
    hide Reaches, Accounted, Wraps, NonceCount;
    NonceBalance(rig, actions, s);
  }

  // ---------------------------------------------------------------- nothing is stranded

  /** Only a new submission could move the pipeline. */
  ghost predicate Quiet(s: State) {
    forall a :: Enabled(s, a) ==> a.Acquire?
  }

  ghost predicate EverythingDelivered(rig: Rig, s: State) {
    && s.results == [] && s.bundles == []
    && From(s.delivered, Direct) == s.pushedResults
    && Bundles(AllDone(s.batons)) == s.pushedBundles
    && forall i :: 0 <= i < |s.batons| ==> From(s.delivered, FromBaton(i)) == AcceptedAll(rig, s.batons[i].done)
  }

  lemma {:induction false} AssignedWhenDone(batons: seq<Baton>)
    requires forall i :: 0 <= i < |batons| ==> batons[i].todo == []
    ensures Assigned(batons) == Bundles(AllDone(batons))
  {
    if batons != [] {
      AssignedWhenDone(batons[..|batons| - 1]);
    }
  }

  lemma QuietThreads(s: State)
    requires Quiet(s) && Consistent(s)
    ensures s.mutex.Free? && s.loop.Waiting? && !s.wakeUp
  {
    assert !Enabled(s, Push) && !Enabled(s, Send) && !Enabled(s, Release);
    assert !Enabled(s, Lock) && !Enabled(s, SwapBundles) && !Enabled(s, SwapResults) && !Enabled(s, Unlock);
    assert !Enabled(s, Deliver) && !Enabled(s, FinishDelivery);
    assert !Enabled(s, DeliverReturned) && !Enabled(s, DeleteBaton) && !Enabled(s, Wake);
  }

  lemma QuietBaton(rig: Rig, s: State, i: nat)
    requires Quiet(s) && s.loop.Waiting? && i < |s.batons| && BatonInOrder(rig, s, i)
    ensures s.batons[i].todo == [] && From(s.delivered, FromBaton(i)) == AcceptedAll(rig, s.batons[i].done)
  {
    assert !Enabled(s, HashBundle(i, true)) && !Enabled(s, StartReturn(i));
  }

  /** A pipeline that cannot move on its own has delivered everything: no wake-up was lost. */
  lemma QuietMeansDelivered(rig: Rig, actions: seq<Action>, s: State)
    requires Reaches(rig, actions, s) && Quiet(s)
    ensures EverythingDelivered(rig, s)
  {
    EveryRunKeepsInv(rig, actions, s);
    QuietThreads(s);
    forall i | 0 <= i < |s.batons|
      ensures s.batons[i].todo == [] && From(s.delivered, FromBaton(i)) == AcceptedAll(rig, s.batons[i].done)
    {
      QuietBaton(rig, s, i);
    }
    AssignedWhenDone(s.batons);
  }

  function QueueWeight(bundles: seq<Bundle>): nat {
    NonceCount(bundles) + 4 * |bundles|
  }

  function PhaseWeight(phase: Phase): nat {
    match phase case Working => 2 case Returning => 1 case Deleted => 0
  }

  function BatonWeight(b: Baton): nat {
    PhaseWeight(b.phase) + NonceCount(b.todo) + |b.todo| + |b.results|
  }

  function BatonsWeight(batons: seq<Baton>): nat {
    if batons == [] then 0 else BatonsWeight(batons[..|batons| - 1]) + BatonWeight(batons[|batons| - 1])
  }

  function MutexWeight(m: Mutex): nat {
    match m
    case HeldByProducer(ResultItem(_), Acquired) => 10
    case HeldByProducer(BundleItem(b), Acquired) => |b.nonces| + 13
    case HeldByProducer(_, Pushed) => 8
    case HeldByProducer(_, Sent) => 1
    case _ => 0
  }

  function LoopWeight(loop: Loop): nat {
    match loop
    case Woken => 5
    case Locked => 4
    case SwappedBundles(_) => 3
    case SwappedBoth(_, _) => 2
    case Delivering(_, _) => 1
    case _ => 0
  }

  /** An upper bound on the steps the pipeline can still take without a new submission. */
  function StepsLeft(s: State): nat {
    MutexWeight(s.mutex) + (if s.wakeUp then 6 else 0) + LoopWeight(s.loop)
    + |s.results| + |LocalResults(s.loop)| + QueueWeight(s.bundles) + QueueWeight(LocalBundles(s.loop))
    + BatonsWeight(s.batons)
  }

  lemma {:induction false} BatonsWeightUpdate(batons: seq<Baton>, i: nat, b: Baton)
    requires i < |batons|
    ensures BatonsWeight(batons[i := b]) + BatonWeight(batons[i]) == BatonsWeight(batons) + BatonWeight(b)
  {
    var n := |batons| - 1;
    if i < n {
      assert batons[i := b][..n] == batons[..n][i := b];
      BatonsWeightUpdate(batons[..n], i, b);
    } else {
      assert batons[i := b][..n] == batons[..n];
    }
  }

  lemma HashedWeighsLess(rig: Rig, b: Baton, ready: bool)
    requires b.todo != []
    ensures BatonWeight(AfterHashing(rig, b, ready)) < BatonWeight(b)
  {
    BundleConservation(rig, b.todo[0], ready);
    assert b.todo == [b.todo[0]] + b.todo[1..];
    NonceCountAdds([b.todo[0]], b.todo[1..]);
    assert [b.todo[0]][..0] == [];
    assert NonceCount([b.todo[0]]) == |b.todo[0].nonces|;
  }

  lemma PushTakesWeight(rig: Rig, s: State)
    requires Enabled(s, Push)
    ensures StepsLeft(Step(rig, s, Push)) < StepsLeft(s)
  {
    if s.mutex.item.BundleItem? {
      assert (s.bundles + [s.mutex.item.bundle])[..|s.bundles|] == s.bundles;
    }
  }

  lemma FinishTakesWeight(rig: Rig, s: State)
    requires Enabled(s, FinishDelivery)
    ensures StepsLeft(Step(rig, s, FinishDelivery)) < StepsLeft(s)
  {
    if s.loop.bundles != [] {
      assert Step(rig, s, FinishDelivery).batons[..|s.batons|] == s.batons;
    }
  }

  lemma BatonStepTakesWeight(rig: Rig, s: State, a: Action)
    requires Enabled(s, a)
    requires a.HashBundle? || a.StartReturn? || a.DeliverReturned? || a.DeleteBaton?
    requires a.DeleteBaton? ==> s.batons[s.loop.baton].phase.Returning?
    ensures StepsLeft(Step(rig, s, a)) < StepsLeft(s)
  {
    hide NonceCount, BatonsWeight, AfterHashing;
    match a
    case HashBundle(i, ready) =>
      HashedWeighsLess(rig, s.batons[i], ready);
      BatonsWeightUpdate(s.batons, i, AfterHashing(rig, s.batons[i], ready));
    case StartReturn(i) => BatonsWeightUpdate(s.batons, i, s.batons[i].(phase := Returning));
    case DeliverReturned =>
      var i := s.loop.baton;
      BatonsWeightUpdate(s.batons, i, s.batons[i].(results := s.batons[i].results[1..]));
    case DeleteBaton => BatonsWeightUpdate(s.batons, s.loop.baton, s.batons[s.loop.baton].(phase := Deleted));
  }

  lemma StepTakesWeight(rig: Rig, s: State, a: Action)
    requires Enabled(s, a) && !a.Acquire? && Inv(rig, s)
    ensures StepsLeft(Step(rig, s, a)) < StepsLeft(s)
  {
    match a
    case Push => PushTakesWeight(rig, s);
    case FinishDelivery => FinishTakesWeight(rig, s);
    case HashBundle(_, _) => BatonStepTakesWeight(rig, s, a);
    case StartReturn(_) => BatonStepTakesWeight(rig, s, a);
    case DeliverReturned => BatonStepTakesWeight(rig, s, a);
    case DeleteBaton =>
      assert BatonInOrder(rig, s, s.loop.baton);
      BatonStepTakesWeight(rig, s, a);
    case _ =>
  }

  /** Without new submissions only boundedly many steps are left, whatever the schedule. */
  lemma {:induction false} RunsDrain(rig: Rig, actions: seq<Action>, more: seq<Action>, s: State)
    requires Reaches(rig, actions + more, s) && forall k :: 0 <= k < |more| ==> !more[k].Acquire?
    ensures exists before :: Reaches(rig, actions, before) && |more| + StepsLeft(s) <= StepsLeft(before)
  {
    if more == [] {
      assert actions + more == actions;
    } else {
      var all, last := actions + more, more[|more| - 1];
      assert all[..|all| - 1] == actions + more[..|more| - 1];
      var mid :| Reaches(rig, all[..|all| - 1], mid) && Enabled(mid, last) && Step(rig, mid, last) == s;
      RunsDrain(rig, actions, more[..|more| - 1], mid);
      EveryRunKeepsInv(rig, all[..|all| - 1], mid);
      StepTakesWeight(rig, mid, last);
    }
  }
}
