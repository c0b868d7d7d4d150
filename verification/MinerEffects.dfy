/**
 What the events of the miner do to the counters, to the pause flag and to the backends, told by
 the fields before and after alone, and what that comes to over runs.
 */
module MinerEffects {
  import opened Jobs
  import opened MinerState
  import opened Options

  // ---------------------------------------------------------------- when a counter is reset

  /** The hashing blobs are of different sizes, or differ in a byte. */
  predicate BlobsDiffer(a: Job, b: Job) {
    a.size != b.size || exists k :: 0 <= k < a.size && a.blob[k] != b.blob[k]
  }

  /** The user's job comes back from donation. */
  predicate ComesBack(s: State, job: Job, donate: bool) {
    s.job.index == 1 && !donate && s.userJobId == job.id
  }

  predicate ResetAt(n: NonceState, m: NonceState, index: JobIndex) {
    && m.resets == n.resets + [index]
    && m.counters == if index == 0 then (0, n.counters.1) else (n.counters.0, 0)
  }

  predicate NoReset(n: NonceState, m: NonceState) {
    m.resets == n.resets && m.counters == n.counters
  }

  lemma EqualBlobs(a: Job, b: Job)
    ensures a.IsEqualBlob(b) <==> !BlobsDiffer(a, b)
  {
    if a.size == b.size && !BlobsDiffer(a, b) {
      assert a.blob[..a.size] == b.blob[..a.size];
    } else if a.size == b.size {
      var k :| 0 <= k < a.size && a.blob[k] != b.blob[k];
      assert a.blob[..a.size][k] != b.blob[..b.size][k];
    }
  }

  lemma JobChangeResets(s: State)
    ensures var t := HandleJobChange(s);
      if s.reset then ResetAt(s.nonce, t.nonce, s.job.index) else NoReset(s.nonce, t.nonce)
  {
  }

  /** A ready job resets the counter of its own index exactly if its blob is new and it does not come back. */
  lemma ReadyJobResetsExactly(s: State, job: Job, donate: bool, datasetReady: bool)
    ensures var t := Step(s, SetJob(job, donate, datasetReady, true));
      if BlobsDiffer(s.job, job) && !ComesBack(s, job, donate) then
        ResetAt(s.nonce, t.nonce, if donate then 1 else 0)
      else NoReset(s.nonce, t.nonce)
  {
    hide PrepareAlgorithm, HandleJobChange, ResetAt, NoReset, BlobsDiffer, Job.IsEqualBlob;
    EqualBlobs(s.job, job);
    var prepared := PrepareAlgorithm(s, job, datasetReady);
    JobChangeResets(StoreJob(prepared, job, donate, true));
    SameStart(s, prepared, StoreJob(prepared, job, donate, true), Step(s, SetJob(job, donate, datasetReady, true)));
  }

  lemma SameStart(s: State, a: State, b: State, t: State)
    requires SameCounters(s, a) && SameCounters(a, b)
    ensures NoReset(s.nonce, t.nonce) <==> NoReset(b.nonce, t.nonce)
    ensures forall index: JobIndex :: ResetAt(s.nonce, t.nonce, index) <==> ResetAt(b.nonce, t.nonce, index)
  {
  }

  /** A job that is not ready resets nothing yet; it is marked for it if it stays at the same index as well. */
  lemma UnreadyJobIsMarked(s: State, job: Job, donate: bool, datasetReady: bool)
    ensures var t := Step(s, SetJob(job, donate, datasetReady, false)); var index: JobIndex := if donate then 1 else 0;
      && NoReset(s.nonce, t.nonce) && t.job == job.(index := index)
      && (t.reset <==> s.job.index == index || (BlobsDiffer(s.job, job) && !ComesBack(s, job, donate)))
  {
    hide PrepareAlgorithm, BlobsDiffer, Job.IsEqualBlob;
    EqualBlobs(s.job, job);
  }

  /** Neither a new job nor a dataset that is ready. */
  predicate Waits(events: seq<Event>) {
    forall k :: 0 <= k < |events| ==> !events[k].SetJob? && !(events[k].DatasetReady? && events[k].ready)
  }

  lemma {:induction false} WaitingKeeps(s: State, events: seq<Event>)
    requires Waits(events)
    ensures var t := Run(s, events); SameJob(s, t) && t.nonce.resets == s.nonce.resets
  {
    if events != [] {
      hide Step, SameJob;
      var init, last := events[..|events| - 1], events[|events| - 1];
      WaitingKeeps(s, init);
      OtherEventFlags(Run(s, init), last);
      StepCounters(Run(s, init), last);
      SameJobAgain(s, Run(s, init), Run(s, events));
    }
  }

  lemma SameJobAgain(a: State, b: State, c: State)
    requires SameJob(a, b) && SameJob(b, c)
    ensures SameJob(a, c)
  {
  }

  /**
   A job that was not ready resets its counter when its dataset is, whatever happened in between,
   exactly if it was marked for it when it arrived.
   */
  lemma WaitingJobResets(s: State, job: Job, donate: bool, datasetReady: bool, between: seq<Event>)
    requires Waits(between)
    ensures var arrival, index: JobIndex := SetJob(job, donate, datasetReady, false), if donate then 1 else 0;
      var waiting, t := Run(Step(s, arrival), between), Run(Step(s, arrival), between + [DatasetReady(true)]);
      && waiting.nonce.resets == s.nonce.resets
      && if s.job.index == index || (BlobsDiffer(s.job, job) && !ComesBack(s, job, donate)) then
           ResetAt(waiting.nonce, t.nonce, index)
         else NoReset(waiting.nonce, t.nonce)
  {
    hide BlobsDiffer, ComesBack, DoSetJob, HandleJobChange, ResetAt;
    var stored := Step(s, SetJob(job, donate, datasetReady, false));
    UnreadyJobIsMarked(s, job, donate, datasetReady);
    WaitingKeeps(stored, between);
    JobChangeResets(Run(stored, between));
    assert (between + [DatasetReady(true)])[..|between|] == between;
  }

  /** A reservation moves the counter of its index, and pauses if it meets the end of the range. */
  lemma ReservationMoves(s: State, index: JobIndex, amount: nat, exhausted: bool)
    ensures var n, m := s.nonce, Step(s, Reserve(index, amount, exhausted)).nonce;
      && m.resets == n.resets && m.sequences == n.sequences
      && (m.paused <==> n.paused || exhausted)
      && (index == 0 ==> m.counters == ((n.counters.0 + amount) % WRAP, n.counters.1))
      && (index == 1 ==> m.counters == (n.counters.0, (n.counters.1 + amount) % WRAP))
  {
  }

  // ---------------------------------------------------------------- when mining pauses and goes on

  predicate SameButEnabled(s: State, t: State) {
    t.active == s.active && t.job == s.job && t.backendJob == s.backendJob && t.algorithm == s.algorithm
  }

  /** A command takes effect unless it asks for what is, or would resume on battery power with the option on. */
  lemma CommandDecides(s: State, on: bool, pauseOnBattery: bool)
    ensures var t := Step(s, SetEnabled(on, pauseOnBattery));
      && SameButEnabled(s, t)
      && (t.enabled != s.enabled <==> s.enabled != on && !(on && pauseOnBattery && s.batteryPower))
      && (t.enabled == s.enabled ==> t == s)
      && (t.enabled != s.enabled ==> FollowsSwitch(s, t))
  {
  }

  /** An active miner is paused exactly if it is off; the pause flag of an inactive one is left alone. */
  predicate FollowsSwitch(s: State, t: State) {
    t.nonce.paused <==> if t.active then !t.enabled else s.nonce.paused
  }

  /** The pause of the pool layer ends activity, and with it mining. */
  lemma PauseStopsMining(s: State)
    ensures var t := Step(s, Pause);
      && !t.active && t.nonce.paused && t.enabled == s.enabled && t.nonce.counters == s.nonce.counters
      && forall b: Backend :: t.nonce.IsOutdated(b, s.nonce.Sequence(b))
  {
  }

  lemma EdgeFollows(s: State, pauseOnBattery: bool, now: bool)
    requires s.autoPause == Raised(s)
    ensures var t := BatteryEdge(s, pauseOnBattery, now);
      SameButEnabled(s, t) && if t.enabled != s.enabled then FollowsSwitch(s, t) else t.nonce == s.nonce
    ensures var t := ActiveEdge(s, pauseOnBattery, now);
      SameButEnabled(s, t) && if t.enabled != s.enabled then FollowsSwitch(s, t) else t.nonce == s.nonce
  {
    hide DoSetEnabled;
    var battery := s.(batteryPower := now, autoPause := s.autoPause + if now then 1 else -1);
    CommandDecides(battery, battery.autoPause == 0, pauseOnBattery);
    var active := s.(userActive := now, autoPause := s.autoPause + if now then 1 else -1);
    CommandDecides(active, active.autoPause == 0, pauseOnBattery);
  }

  lemma PolledFollows(s: State, e: Event)
    requires e.Timer? && s.autoPause == Raised(s)
    ensures var t := Polled(s, e);
      && SameButEnabled(s, t)
      && (t.enabled != s.enabled ==> FollowsSwitch(s, t))
      && (t.enabled == s.enabled ==> FollowsSwitch(s, t) || t.nonce == s.nonce)
  {
    hide BatteryPolled, ActiveEdge;
    BatteryPolledFollows(s, e);
    EdgeFollows(BatteryPolled(s, e), e.pauseOnBattery, e.isActive);
  }

  lemma BatteryPolledFollows(s: State, e: Event)
    requires e.Timer? && s.autoPause == Raised(s)
    ensures var t := BatteryPolled(s, e);
      && t.autoPause == Raised(t) && SameButEnabled(s, t)
      && if t.enabled != s.enabled then FollowsSwitch(s, t) else t.nonce == s.nonce
  {
    hide BatteryEdge;
    var s1 := s.(ticks := (s.ticks + 1) % WRAP);
    EdgesCountReasons(s1, e.pauseOnBattery, e.onBattery);
    EdgeFollows(s1, e.pauseOnBattery, e.onBattery);
  }

  /** Every tick is counted. */
  lemma TickCounts(s: State, e: Event)
    requires e.Timer?
    ensures Step(s, e).ticks == (s.ticks + 1) % WRAP
  {
    hide BatteryEdge, ActiveEdge, DoStop;
    EdgesKeepTicks(s.(ticks := (s.ticks + 1) % WRAP), e.pauseOnBattery, e.onBattery);
    EdgesKeepTicks(BatteryPolled(s, e), e.pauseOnBattery, e.isActive);
    StopKeepsTicks(Polled(s, e));
  }

  lemma StopKeepsTicks(s: State)
    ensures DoStop(s).ticks == s.ticks
  {
  }

  lemma EdgesKeepTicks(s: State, pauseOnBattery: bool, now: bool)
    ensures BatteryEdge(s, pauseOnBattery, now).ticks == s.ticks
    ensures ActiveEdge(s, pauseOnBattery, now).ticks == s.ticks
  {
  }

  /** In every run a tick that switches mining pauses an active miner or lets it go on, unless it stops as well. */
  lemma TickPauses(job: Job, events: seq<Event>, e: Event)
    requires e.Timer?
    ensures var s, t := Run(Initial(job), events), Run(Initial(job), events + [e]);
      && (e.stopMiner ==> !t.nonce.paused && t.backendJob.None?)
      && (!e.stopMiner ==> SameButEnabled(s, t) && (t.enabled != s.enabled ==> FollowsSwitch(s, t)))
  {
    assert (events + [e])[..|events|] == events;
    AutoPauseCountsReasons(job, events);
    PolledFollows(Run(Initial(job), events), e);
    hide Polled, Run;
  }

  /** Whatever switches an active miner on, in any run, leaves it unpaused. */
  lemma SwitchedOnGoesOn(job: Job, events: seq<Event>, e: Event)
    ensures var s, t := Run(Initial(job), events), Run(Initial(job), events + [e]);
      s.active && !s.enabled && t.enabled ==> t.active && !t.nonce.paused
  {
    assert (events + [e])[..|events|] == events;
    SwitchFollows(job, events, e);
    hide Run, Step;
  }

  /** Whatever switches it off leaves it paused, unless it stops as well. */
  lemma SwitchedOffPauses(job: Job, events: seq<Event>, e: Event)
    ensures var s, t := Run(Initial(job), events), Run(Initial(job), events + [e]);
      s.active && s.enabled && !t.enabled && !CallsStop(s, e) ==> t.nonce.paused
  {
    assert (events + [e])[..|events|] == events;
    SwitchFollows(job, events, e);
    hide Run, Step;
  }

  lemma SwitchFollows(job: Job, events: seq<Event>, e: Event)
    ensures var s := Run(Initial(job), events); var t := Step(s, e);
      t.enabled != s.enabled ==>
        t.active == s.active && if CallsStop(s, e) then !t.nonce.paused else FollowsSwitch(s, t)
  {
    var s := Run(Initial(job), events);
    hide DoSetJob, DoSetEnabled, HandleJobChange, DoTimer, StopsMining, Run;
    match e
    case SetJob(_, _, _, _) => JobKeepsPauseFields(s, e);
    case SetEnabled(on, pauseOnBattery) => CommandDecides(s, on, pauseOnBattery);
    case Timer(_, _, _, _, _) =>
      TickPauses(job, events, e);
      AutoPauseCountsReasons(job, events);
      TimerDecides(s, e);
      assert (events + [e])[..|events|] == events;
      RunAppend(Initial(job), events, e);
    case _ =>
  }

  lemma RunAppend(s: State, events: seq<Event>, e: Event)
    ensures Run(s, events + [e]) == Step(Run(s, events), e)
  {
    assert (events + [e])[..|events|] == events;
  }

  /** The backends get the miner's own job, and an enabled active miner goes on. */
  lemma JobChangeHandsOver(s: State)
    ensures var t := Step(s, DatasetReady(true));
      && t.backendJob == Some(s.job) && t.job == s.job && t.active == s.active && t.enabled == s.enabled
      && t.algorithm == s.algorithm
      && (t.nonce.paused <==> if t.enabled then !t.active && s.nonce.paused else true)
    ensures Step(s, DatasetReady(false)) == s
  {
  }

  /** So does a ready job; one that is not ready leaves the backends without it. */
  lemma JobHandsOver(s: State, job: Job, donate: bool, datasetReady: bool, initReady: bool)
    ensures var t := Step(s, SetJob(job, donate, datasetReady, initReady));
      && t.active && t.enabled == s.enabled && t.algorithm == Some(job.algorithm)
      && (initReady ==> t.backendJob == Some(job.(index := if donate then 1 else 0)))
      && (!initReady ==> t.backendJob == if NewRandomX(s, job) then None else s.backendJob)
  {
    hide NeedsReset;
  }

  /** A RandomX algorithm other than the last one. */
  predicate NewRandomX(s: State, job: Job) {
    job.algorithm.family.RandomX? && (s.algorithm.Some? ==> s.algorithm.value != job.algorithm)
  }

  /** A new RandomX algorithm stops mining; one whose dataset is not ready pauses it. */
  lemma JobStopsExactly(s: State, job: Job, donate: bool, datasetReady: bool, initReady: bool)
    ensures var n, m := s.nonce, Step(s, SetJob(job, donate, datasetReady, initReady)).nonce;
      var waits := job.algorithm.family.RandomX? && !datasetReady;
      && m.stops == n.stops + (if NewRandomX(s, job) then 1 else 0)
      && (m.paused <==> if initReady then !s.enabled else !NewRandomX(s, job) && (waits || n.paused))
  {
    hide NeedsReset, PrepareAlgorithm, HandleJobChange;
    PreparingStops(s, job, datasetReady);
    HandlingPauses(StoreJob(PrepareAlgorithm(s, job, datasetReady), job, donate, initReady));
  }

  lemma PreparingStops(s: State, job: Job, datasetReady: bool)
    ensures var n, m := s.nonce, PrepareAlgorithm(s, job, datasetReady).nonce;
      && m.stops == n.stops + (if NewRandomX(s, job) then 1 else 0)
      && (m.paused <==> !NewRandomX(s, job) && ((job.algorithm.family.RandomX? && !datasetReady) || n.paused))
  {
  }

  lemma HandlingPauses(s: State)
    ensures var n, m := s.nonce, HandleJobChange(s).nonce;
      m.stops == n.stops && (m.paused <==> if s.enabled then !s.active && n.paused else true)
  {
  }

  /** The last job decides about the next one: the same algorithm again does not stop mining. */
  lemma SameAlgorithmGoesOn(s: State, first: Event, between: seq<Event>, job: Job)
    requires first.SetJob? && NoNewJob(between) && job.algorithm == first.job.algorithm
    ensures !NewRandomX(Run(Step(s, first), between), job)
  {
    hide NeedsReset;
    AlgorithmKept(Step(s, first), between);
    hide Run, Step;
    JobHandsOver(s, first.job, first.donate, first.datasetReady, first.initReady);
  }

  lemma {:induction false} AlgorithmKept(s: State, events: seq<Event>)
    requires NoNewJob(events)
    ensures Run(s, events).algorithm == s.algorithm
  {
    if events != [] {
      AlgorithmKept(s, events[..|events| - 1]);
      OtherEventsKeep(Run(s, events[..|events| - 1]), events[|events| - 1]);
      hide Step;
    }
  }

  /** The backends keep their job, or lose it to a stop. */
  predicate KeepsBackends(s: State, t: State) {
    t.algorithm == s.algorithm && (t.backendJob == s.backendJob || t.backendJob.None?)
  }

  /** Without a new job the algorithm stays, and the backends get a job by a ready dataset only. */
  lemma OtherEventsKeep(s: State, e: Event)
    requires !e.SetJob?
    ensures var t := Step(s, e);
      t.algorithm == s.algorithm && if HandsOver(e) then t.backendJob == Some(t.job) else KeepsBackends(s, t)
  {
    hide DoTimer, DoSetEnabled, HandleJobChange, DoStop;
    match e
    case DatasetReady(_) => JobChangeHandsOver(s);
    case SetEnabled(on, pauseOnBattery) => CommandDecides(s, on, pauseOnBattery);
    case Timer(_, _, _, _, _) => TimerKeepsBackends(s, e);
    case Stop => StopTakesBackends(s);
    case _ =>
  }

  lemma StopTakesBackends(s: State)
    ensures DoStop(s).algorithm == s.algorithm && DoStop(s).backendJob.None?
  {
  }

  lemma EdgesKeepBackends(s: State, pauseOnBattery: bool, now: bool)
    ensures SameButEnabled(s, BatteryEdge(s, pauseOnBattery, now))
    ensures SameButEnabled(s, ActiveEdge(s, pauseOnBattery, now))
  {
    hide DoSetEnabled;
    var battery := s.(batteryPower := now, autoPause := s.autoPause + if now then 1 else -1);
    CommandDecides(battery, battery.autoPause == 0, pauseOnBattery);
    var active := s.(userActive := now, autoPause := s.autoPause + if now then 1 else -1);
    CommandDecides(active, active.autoPause == 0, pauseOnBattery);
  }

  lemma TimerKeepsBackends(s: State, e: Event)
    requires e.Timer?
    ensures KeepsBackends(s, DoTimer(s, e))
  {
    hide BatteryEdge, ActiveEdge, DoStop;
    EdgesKeepBackends(s.(ticks := (s.ticks + 1) % WRAP), e.pauseOnBattery, e.onBattery);
    EdgesKeepBackends(BatteryPolled(s, e), e.pauseOnBattery, e.isActive);
    StopTakesBackends(Polled(s, e));
  }

  // ---------------------------------------------------------------- nothing else keeps mining paused

  /** Mining that is wanted is not paused. */
  predicate Live(s: State) {
    s.active && s.enabled ==> !s.nonce.paused
  }

  /** A job that is not ready, and a worker at the end of its range, may leave wanted mining paused. */
  predicate MayStall(e: Event) {
    (e.SetJob? && !e.initReady) || (e.Reserve? && e.exhausted)
  }

  lemma StepKeepsLive(s: State, e: Event)
    requires Live(s) && s.autoPause == Raised(s) && !MayStall(e)
    ensures Live(Step(s, e))
  {
    hide DoSetJob, DoSetEnabled, HandleJobChange, DoTimer, Polled;
    match e
    case SetJob(job, donate, datasetReady, initReady) =>
      JobStopsExactly(s, job, donate, datasetReady, initReady);
      JobHandsOver(s, job, donate, datasetReady, initReady);
    case DatasetReady(_) => JobChangeHandsOver(s);
    case SetEnabled(on, pauseOnBattery) => CommandDecides(s, on, pauseOnBattery);
    case Timer(_, _, _, _, _) =>
      PolledFollows(s, e);
      StoppedIsUnpaused(s, e);
    case _ =>
  }

  lemma StoppedIsUnpaused(s: State, e: Event)
    requires e.Timer?
    ensures if e.stopMiner then !DoTimer(s, e).nonce.paused else DoTimer(s, e) == Polled(s, e)
  {
    hide Polled;
  }

  predicate NeverStalls(events: seq<Event>) {
    forall k :: 0 <= k < |events| ==> !MayStall(events[k])
  }

  lemma {:induction false} LiveKept(job: Job, before: seq<Event>, events: seq<Event>)
    requires Live(Run(Initial(job), before)) && NeverStalls(events)
    ensures Live(Run(Initial(job), before + events))
  {
    hide Step, Live, MayStall;
    if events == [] {
      assert before + events == before;
    } else {
      var init, last := events[..|events| - 1], events[|events| - 1];
      LiveKept(job, before, init);
      AutoPauseCountsReasons(job, before + init);
      StepKeepsLive(Run(Initial(job), before + init), last);
      assert before + events == before + init + [last];
      RunAppend(Initial(job), before + init, last);
    }
  }

  /** In every run, behind a handed-over job wanted mining stays unpaused until one of the two events. */
  lemma HandedOverGoesOn(job: Job, before: seq<Event>, handed: Event, events: seq<Event>)
    requires HandsOver(handed) && NeverStalls(events)
    ensures Live(Run(Initial(job), before + [handed] + events))
  {
    hide Step, Run, NeverStalls;
    RunAppend(Initial(job), before, handed);
    HandedOverIsLive(Run(Initial(job), before), handed);
    LiveKept(job, before + [handed], events);
  }

  lemma HandedOverIsLive(s: State, e: Event)
    requires HandsOver(e)
    ensures Live(Step(s, e))
  {
    hide DoSetJob, HandleJobChange;
    if e.SetJob? {
      JobStopsExactly(s, e.job, e.donate, e.datasetReady, e.initReady);
      JobHandsOver(s, e.job, e.donate, e.datasetReady, e.initReady);
    } else {
      JobChangeHandsOver(s);
    }
  }
}
