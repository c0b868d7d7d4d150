/**
 The whole path of a job and of its results, as a value: pool jobs reach the miner through
 the network layer, the miner hands them to the backends, the backends push results and
 bundles for any job they were ever handed, and the pipeline delivers results to the
 network layer, which chooses a strategy by the index of the result.
 */
module NetworkState {
  import opened Jobs
  import opened Rehash
  import opened MinerState
  import opened MinerEffects
  import Pipeline = ResultPipeline

  /** The strategy that a job comes from, and the one that a result is submitted to. */
  datatype Origin = User | Donate

  /** A job that the miner gave to the backends, with the strategy that it came from. */
  datatype Handed = Handed(job: Job, origin: Origin)

  /** The strategies are fixed for a run; origin is the strategy of the miner's current job. */
  datatype NetState = NetState(
    hasDonate: bool, miner: State, origin: Origin, handed: seq<Handed>, pipe: Pipeline.State)

  /** What else happens to the miner: callbacks, commands, ticks and reservations. */
  type Other = e: Event | !e.SetJob? witness Pause

  datatype NetEvent =
    | Arrival(from: Origin, donateActive: bool, job: Job, datasetReady: bool, initReady: bool)
    | MinerEvent(event: Other)
    | PipelineStep(action: Pipeline.Action)

  function InitialNet(hasDonate: bool, job: Job): NetState {
    NetState(hasDonate, Initial(job), User, [], Pipeline.INITIAL)
  }

  /** User jobs are ignored while the donate strategy is active. */
  predicate Ignored(hasDonate: bool, from: Origin, donateActive: bool) {
    hasDonate && donateActive && from.User?
  }

  /** The choice of the strategy for a result. */
  function Route(hasDonate: bool, index: JobIndex): Origin {
    if index == 1 && hasDonate then Donate else User
  }

  /** A result found for a job. */
  predicate FoundFor(r: JobResult, job: Job) {
    r == ResultFor(job, r.nonce, r.hash, r.headerHash, r.mixHash)
  }

  /** A result or a bundle made for a job; also the result that reports its end. */
  predicate MadeFor(item: Pipeline.Item, job: Job) {
    match item
    case ResultItem(r) => FoundFor(r, job) || r == EndOf(job)
    case BundleItem(b) => b.job == job
  }

  /** The backends only work on jobs they were handed, though not only on the last one. */
  ghost predicate Made(handed: seq<Handed>, item: Pipeline.Item) {
    exists k :: 0 <= k < |handed| && MadeFor(item, handed[k].job)
  }

  ghost predicate Legal(s: NetState, e: NetEvent) {
    match e
    case Arrival(from, _, _, _, _) => from.Donate? ==> s.hasDonate
    case MinerEvent(_) => true
    case PipelineStep(a) => Pipeline.Enabled(s.pipe, a) && (a.Acquire? ==> Made(s.handed, a.item))
  }

  function AfterMiner(s: NetState, e: Event, origin: Origin): (t: NetState)
    ensures t.hasDonate == s.hasDonate && t.origin == origin && t.pipe == s.pipe && t.miner == Step(s.miner, e)
  {
    var m := Step(s.miner, e);
    s.(miner := m, origin := origin,
       handed := if HandsOver(e) then s.handed + [Handed(m.job, origin)] else s.handed)
  }

  ghost function Next(rig: Rig, s: NetState, e: NetEvent): NetState
    requires Legal(s, e)
  {
    match e
    case Arrival(from, donateActive, job, datasetReady, initReady) =>
      if Ignored(s.hasDonate, from, donateActive) then s
      else AfterMiner(s, SetJob(job, from.Donate?, datasetReady, initReady), from)
    case MinerEvent(event) => AfterMiner(s, event, s.origin)
    case PipelineStep(a) => s.(pipe := Pipeline.Step(rig, s.pipe, a))
  }

  ghost predicate Reaches(rig: Rig, start: NetState, events: seq<NetEvent>, s: NetState) {
    if events == [] then s == start
    else
      var init, last := events[..|events| - 1], events[|events| - 1];
      exists before :: Reaches(rig, start, init, before) && Legal(before, last) && Next(rig, before, last) == s
  }

  // ---------------------------------------------------------------- routing

  /** The index of a job says where it came from. */
  predicate IndexTellsOrigin(hasDonate: bool, job: Job, origin: Origin) {
    job.index == TargetIndex(origin.Donate?) && (origin.Donate? ==> hasDonate)
  }

  ghost predicate HandedInv(s: NetState) {
    && IndexTellsOrigin(s.hasDonate, s.miner.job, s.origin)
    && forall k :: 0 <= k < |s.handed| ==> IndexTellsOrigin(s.hasDonate, s.handed[k].job, s.handed[k].origin)
  }

  ghost predicate AllMade(handed: seq<Handed>, pipe: Pipeline.State) {
    && (pipe.mutex.HeldByProducer? ==> Made(handed, pipe.mutex.item))
    && (forall r :: r in pipe.pushedResults ==> Made(handed, Pipeline.ResultItem(r)))
    && (forall b :: b in pipe.pushedBundles ==> Made(handed, Pipeline.BundleItem(b)))
  }

  ghost predicate NetInv(rig: Rig, s: NetState) {
    HandedInv(s) && AllMade(s.handed, s.pipe) && Pipeline.Inv(rig, s.pipe)
  }

  lemma MinerJob(s: State, e: Event)
    ensures var t := Step(s, e);
      && (e.SetJob? ==> t.job.index == TargetIndex(e.donate))
      && (!e.SetJob? ==> t.job == s.job)
  {
    hide Step;
    if e.SetJob? {
      JobFlags(s, e);
    } else {
      OtherEventFlags(s, e);
    }
  }

  lemma MinerKeepsHanded(s: NetState, e: Event, origin: Origin)
    requires HandedInv(s)
    requires if e.SetJob? then e.donate == origin.Donate? && (origin.Donate? ==> s.hasDonate) else origin == s.origin
    ensures HandedInv(AfterMiner(s, e, origin))
  {
    hide Step;
    MinerJob(s.miner, e);
  }

  lemma MoreHanded(handed: seq<Handed>, h: Handed, item: Pipeline.Item)
    requires Made(handed, item)
    ensures Made(handed + [h], item)
  {
    var k :| 0 <= k < |handed| && MadeFor(item, handed[k].job);
    assert (handed + [h])[k] == handed[k];
  }

  lemma MinerKeepsMade(s: NetState, e: Event, origin: Origin)
    requires AllMade(s.handed, s.pipe)
    ensures AllMade(AfterMiner(s, e, origin).handed, s.pipe)
  {
    hide Step, Made;
    var h := Handed(Step(s.miner, e).job, origin);
    forall item | Made(s.handed, item) ensures Made(s.handed + [h], item) {
      MoreHanded(s.handed, h, item);
    }
  }

  lemma PipelineKeepsMade(rig: Rig, handed: seq<Handed>, pipe: Pipeline.State, a: Pipeline.Action)
    requires Pipeline.Enabled(pipe, a) && (a.Acquire? ==> Made(handed, a.item))
    requires AllMade(handed, pipe)
    ensures AllMade(handed, Pipeline.Step(rig, pipe, a))
  {
    hide Made;
  }

  lemma NextKeepsInv(rig: Rig, s: NetState, e: NetEvent)
    requires Legal(s, e) && NetInv(rig, s)
    ensures NetInv(rig, Next(rig, s, e))
  {
    hide AfterMiner, AllMade, Pipeline.Inv, Pipeline.Step, Pipeline.Enabled, Made;
    match e
    case Arrival(from, donateActive, job, datasetReady, initReady) =>
      if !Ignored(s.hasDonate, from, donateActive) {
        MinerKeepsHanded(s, SetJob(job, from.Donate?, datasetReady, initReady), from);
        MinerKeepsMade(s, SetJob(job, from.Donate?, datasetReady, initReady), from);
      }
    case MinerEvent(event) =>
      MinerKeepsHanded(s, event, s.origin);
      MinerKeepsMade(s, event, s.origin);
    case PipelineStep(a) =>
      Pipeline.StepKeepsInv(rig, s.pipe, a);
      PipelineKeepsMade(rig, s.handed, s.pipe, a);
  }

  lemma {:induction false} EveryRunKeepsNetInv(rig: Rig, hasDonate: bool, job: Job, events: seq<NetEvent>, s: NetState)
    requires Reaches(rig, InitialNet(hasDonate, job), events, s)
    ensures NetInv(rig, s) && s.hasDonate == hasDonate
  {
    hide Legal, Next, NetInv;
    var start := InitialNet(hasDonate, job);
    if events == [] {
      InitialNetInv(rig, hasDonate, job);
    } else {
      var init, last := events[..|events| - 1], events[|events| - 1];
      var before :| Reaches(rig, start, init, before) && Legal(before, last) && Next(rig, before, last) == s;
      EveryRunKeepsNetInv(rig, hasDonate, job, init, before);
      NextKeepsInv(rig, before, last);
      NextKeepsStrategies(rig, before, last);
    }
  }

  lemma InitialNetInv(rig: Rig, hasDonate: bool, job: Job)
    ensures NetInv(rig, InitialNet(hasDonate, job))
  {
    Pipeline.EveryRunKeepsInv(rig, [], Pipeline.INITIAL);
    hide Pipeline.Inv;
  }

  lemma NextKeepsStrategies(rig: Rig, s: NetState, e: NetEvent)
    requires Legal(s, e)
    ensures Next(rig, s, e).hasDonate == s.hasDonate
  {
    hide Step, Pipeline.Step, Pipeline.Enabled, Made;
  }

  lemma {:induction false} DeliveredIsFromSource(delivered: seq<Pipeline.Delivery>, k: nat)
    requires k < |delivered|
    ensures delivered[k].result in Pipeline.From(delivered, delivered[k].source)
  {
    var n := |delivered| - 1;
    if k < n {
      DeliveredIsFromSource(delivered[..n], k);
    }
  }

  lemma {:induction false} AcceptedComesFrom(rig: Rig, done: seq<Done>, r: JobResult) returns (i: nat)
    requires r in AcceptedAll(rig, done)
    ensures i < |done| && r in Accepted(rig, done[i].bundle, done[i].ready)
  {
    hide Accepted;
    var n := |done| - 1;
    if r in Accepted(rig, done[n].bundle, done[n].ready) {
      i := n;
    } else {
      i := AcceptedComesFrom(rig, done[..n], r);
    }
  }

  lemma {:induction false} DoneWasAssigned(batons: seq<Pipeline.Baton>, i: nat, k: nat)
    requires i < |batons| && k < |batons[i].done|
    ensures batons[i].done[k].bundle in Pipeline.Assigned(batons)
  {
    var n := |batons| - 1;
    if i < n {
      DoneWasAssigned(batons[..n], i, k);
    } else {
      assert Bundles(batons[n].done)[k] == batons[n].done[k].bundle;
    }
  }

  /** A re-hashed result is one found for the job of its bundle. */
  lemma AcceptedMadeFor(rig: Rig, bundle: Bundle, ready: bool, r: JobResult)
    requires r in Accepted(rig, bundle, ready)
    ensures FoundFor(r, bundle.job)
  {
    hide ConfirmedNonces, ProofOfWork, Input, FullNonce;
  }

  lemma DirectWasPushed(s: Pipeline.State, k: nat)
    requires Pipeline.ResultsInOrder(s) && k < |s.delivered| && s.delivered[k].source.Direct?
    ensures s.delivered[k].result in s.pushedResults
  {
    hide Pipeline.From;
    DeliveredIsFromSource(s.delivered, k);
  }

  lemma ReturnedWasAssigned(rig: Rig, s: Pipeline.State, i: nat, r: JobResult) returns (bundle: Bundle)
    requires i < |s.batons| && Pipeline.BatonInOrder(rig, s, i) && Pipeline.BundlesInOrder(s)
    requires r in Pipeline.From(s.delivered, Pipeline.FromBaton(i))
    ensures bundle in s.pushedBundles && MadeFor(Pipeline.ResultItem(r), bundle.job)
  {
    hide Pipeline.From, AcceptedAll, RejectedAll, Accepted, FoundFor, Pipeline.Assigned;
    var k := AcceptedComesFrom(rig, s.batons[i].done, r);
    DoneWasAssigned(s.batons, i, k);
    bundle := s.batons[i].done[k].bundle;
    AcceptedMadeFor(rig, bundle, s.batons[i].done[k].ready, r);
  }

  /** Every delivered result was made for a job that the backends had been handed. */
  lemma DeliveredWasMade(rig: Rig, s: NetState, k: nat)
    requires NetInv(rig, s) && k < |s.pipe.delivered|
    ensures Made(s.handed, Pipeline.ResultItem(s.pipe.delivered[k].result))
  {
    hide Pipeline.From, Pipeline.BatonInOrder, Pipeline.BundlesInOrder, Pipeline.ResultsInOrder;
    var d := s.pipe.delivered[k];
    match d.source
    case Direct => DirectWasPushed(s.pipe, k);
    case FromBaton(i) =>
      DeliveredIsFromSource(s.pipe.delivered, k);
      var bundle := ReturnedWasAssigned(rig, s.pipe, i, d.result);
      SameJobMade(s.handed, bundle, d.result);
  }

  lemma SameJobMade(handed: seq<Handed>, bundle: Bundle, r: JobResult)
    requires Made(handed, Pipeline.BundleItem(bundle)) && MadeFor(Pipeline.ResultItem(r), bundle.job)
    ensures Made(handed, Pipeline.ResultItem(r))
  {
    var k :| 0 <= k < |handed| && MadeFor(Pipeline.BundleItem(bundle), handed[k].job);
    assert MadeFor(Pipeline.ResultItem(r), handed[k].job);
  }

  /**
   Whenever a result is delivered, some job that the backends were handed produced it, and for
   every such job the result is submitted to the strategy that the job came from, whatever job
   the miner has by then.
   */
  lemma ResultsReturnToTheirOrigin(rig: Rig, hasDonate: bool, job: Job, events: seq<NetEvent>, s: NetState, k: nat)
    requires Reaches(rig, InitialNet(hasDonate, job), events, s) && k < |s.pipe.delivered|
    ensures var r := s.pipe.delivered[k].result;
      && Made(s.handed, Pipeline.ResultItem(r))
      && forall h :: h in s.handed && MadeFor(Pipeline.ResultItem(r), h.job) ==> Route(hasDonate, r.index) == h.origin
  {
    hide Reaches, Made, Pipeline.Inv;
    EveryRunKeepsNetInv(rig, hasDonate, job, events, s);
    DeliveredWasMade(rig, s, k);
  }

  /** The job that the backends have is the last one they were handed. */
  ghost predicate BackendsHaveLast(s: NetState) {
    s.miner.backendJob.Some? ==> s.handed != [] && s.handed[|s.handed| - 1].job == s.miner.backendJob.value
  }

  lemma MinerKeepsBackends(s: NetState, e: Event, origin: Origin)
    requires BackendsHaveLast(s)
    ensures var t := AfterMiner(s, e, origin);
      && BackendsHaveLast(t)
      && (HandsOver(e) ==> t.handed == s.handed + [Handed(t.miner.job, origin)])
  {
    hide Step;
    if e.SetJob? {
      JobHandsOver(s.miner, e.job, e.donate, e.datasetReady, e.initReady);
      MinerJob(s.miner, e);
      JobFlags(s.miner, e);
    } else {
      OtherEventsKeep(s.miner, e);
    }
  }

  /** In every run the backends work on the job that was handed over last, or on none. */
  lemma {:induction false} EveryRunKeepsBackends(rig: Rig, hasDonate: bool, job: Job, events: seq<NetEvent>,
                                                 s: NetState)
    requires Reaches(rig, InitialNet(hasDonate, job), events, s)
    ensures BackendsHaveLast(s)
  {
    hide Legal, AfterMiner, Pipeline.Step, Pipeline.Enabled, Made;
    if events != [] {
      var start, init, last := InitialNet(hasDonate, job), events[..|events| - 1], events[|events| - 1];
      var before :| Reaches(rig, start, init, before) && Legal(before, last) && Next(rig, before, last) == s;
      EveryRunKeepsBackends(rig, hasDonate, job, init, before);
      match last
      case Arrival(from, donateActive, arrived, datasetReady, initReady) =>
        MinerKeepsBackends(before, SetJob(arrived, from.Donate?, datasetReady, initReady), from);
      case MinerEvent(event) => MinerKeepsBackends(before, event, before.origin);
      case PipelineStep(_) =>
    }
  }

  // ---------------------------------------------------------------- donation at the network layer

  /** What the miner sees of a run of the network layer. */
  function Seen(hasDonate: bool, events: seq<NetEvent>): seq<Event> {
    if events == [] then []
    else
      var last := events[|events| - 1];
      Seen(hasDonate, events[..|events| - 1]) +
      match last
      case Arrival(from, donateActive, job, datasetReady, initReady) =>
        if Ignored(hasDonate, from, donateActive) then [] else [SetJob(job, from.Donate?, datasetReady, initReady)]
      case MinerEvent(event) => [event]
      case PipelineStep(_) => []
  }

  /** The donate strategy is active whenever a job arrives. */
  predicate DonationActive(events: seq<NetEvent>) {
    forall k :: 0 <= k < |events| && events[k].Arrival? ==> events[k].donateActive
  }

  /** The network layer drives the miner exactly by the events that get past it. */
  lemma {:induction false} MinerRuns(rig: Rig, start: NetState, events: seq<NetEvent>, s: NetState)
    requires Reaches(rig, start, events, s)
    ensures s.miner == Run(start.miner, Seen(start.hasDonate, events)) && s.hasDonate == start.hasDonate
  {
    hide Step, Pipeline.Step, Pipeline.Enabled, Made;
    if events != [] {
      var init, last := events[..|events| - 1], events[|events| - 1];
      var before :| Reaches(rig, start, init, before) && Legal(before, last) && Next(rig, before, last) == s;
      MinerRuns(rig, start, init, before);
      NextKeepsStrategies(rig, before, last);
      MinerSees(rig, start, init, last, before);
    }
  }

  lemma MinerSees(rig: Rig, start: NetState, init: seq<NetEvent>, last: NetEvent, before: NetState)
    requires Legal(before, last) && before.hasDonate == start.hasDonate
    requires before.miner == Run(start.miner, Seen(start.hasDonate, init))
    ensures Next(rig, before, last).miner == Run(start.miner, Seen(start.hasDonate, init + [last]))
  {
    hide Step, Pipeline.Step, Pipeline.Enabled, Made;
    var seen := Seen(start.hasDonate, init);
    assert (init + [last])[..|init|] == init;
    if Seen(start.hasDonate, init + [last]) == seen {
    } else {
      var e := Seen(start.hasDonate, init + [last])[|seen|];
      assert Seen(start.hasDonate, init + [last]) == seen + [e];
      assert (seen + [e])[..|seen|] == seen;
    }
  }

  /** While donation is active only donation jobs get past the network layer. */
  lemma {:induction false} DonationShieldsTheMiner(events: seq<NetEvent>)
    requires DonationActive(events)
    ensures KeepsDonating(Seen(true, events))
  {
    if events != [] {
      DonationShieldsTheMiner(events[..|events| - 1]);
    }
  }

  predicate NoArrival(events: seq<NetEvent>) {
    forall k :: 0 <= k < |events| ==> !events[k].Arrival?
  }

  lemma {:induction false} NoArrivalNoJob(hasDonate: bool, events: seq<NetEvent>)
    requires NoArrival(events)
    ensures NoNewJob(Seen(hasDonate, events))
  {
    if events != [] {
      NoArrivalNoJob(hasDonate, events[..|events| - 1]);
    }
  }

  lemma {:induction false} SeenConcat(hasDonate: bool, a: seq<NetEvent>, b: seq<NetEvent>)
    ensures Seen(hasDonate, a + b) == Seen(hasDonate, a) + Seen(hasDonate, b)
  {
    if b == [] {
      assert a + b == a;
    } else {
      assert (a + b)[..|a + b| - 1] == a + b[..|b| - 1];
      SeenConcat(hasDonate, a, b[..|b| - 1]);
    }
  }

  lemma SeenArrival(hasDonate: bool, e: NetEvent)
    requires e.Arrival? && !Ignored(hasDonate, e.from, e.donateActive)
    ensures Seen(hasDonate, [e]) == [SetJob(e.job, e.from.Donate?, e.datasetReady, e.initReady)]
  {
    assert [e][..0] == [];
  }

  /**
   A donation at the network layer: from the first donation job until the user's job is back and
   the next job arrives, no reset hits the user's nonce counter, although user jobs keep arriving.
   */
  lemma DonationKeepsUserRange(rig: Rig, s: NetState, first: NetEvent, during: seq<NetEvent>, back: NetEvent,
                               after: seq<NetEvent>, t: NetState)
    requires s.hasDonate && Reaches(rig, s, [first] + during + [back] + after, t)
    requires first.Arrival? && first.from.Donate? && DonationActive(during)
    requires back.Arrival? && back.from.User? && !back.donateActive && back.job.id == s.miner.userJobId
    requires NoArrival(after)
    ensures UserRangeKept(s.miner.nonce, t.miner.nonce,
                          Reserved(Seen(true, during), 0) + Reserved(Seen(true, after), 0))
  {
    hide Run, UserRangeKept, KeepsDonating, NoNewJob, Reaches, Seen;
    MinerRuns(rig, s, [first] + during + [back] + after, t);
    SeenConcat(true, [first] + during + [back], after);
    SeenConcat(true, [first] + during, [back]);
    SeenConcat(true, [first], during);
    SeenArrival(true, first);
    SeenArrival(true, back);
    DonationShieldsTheMiner(during);
    NoArrivalNoJob(true, after);
    var firstJob := SetJob(first.job, true, first.datasetReady, first.initReady);
    var backJob := SetJob(back.job, false, back.datasetReady, back.initReady);
    DonationContinuesUserRange(s.miner, firstJob, Seen(true, during), backJob, Seen(true, after));
  }
}
