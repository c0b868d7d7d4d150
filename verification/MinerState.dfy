/**
 The miner's job and pause state with the global nonce state, as a value, and one
 transition per event that reaches the miner. The readiness of the RandomX dataset and
 everything read from the configuration and the platform are parameters of the events.
 */
module MinerState {
  import opened Jobs
  import opened Options
  import opened Words

  const WRAP: nat := 0x1_0000_0000_0000_0000

  type Uint64 = n: int | 0 <= n < WRAP

  datatype Backend = Cpu | OpenCL | Cuda

  /**
   Nonce: the pause flag, one sequence number per backend kind, one counter per job index. As
   histories, the reset calls, the number of stop calls, and the touch calls since the last one.
   */
  datatype NonceState = NonceState(
    paused: bool, sequences: (Uint64, Uint64, Uint64), counters: (Uint64, Uint64),
    resets: seq<JobIndex>, stops: nat, touches: nat)
  {
    function Sequence(backend: Backend): Uint64 {
      match backend case Cpu => sequences.0 case OpenCL => sequences.1 case Cuda => sequences.2
    }

    /** isOutdated: a worker with this sequence number has to take a new job. */
    predicate IsOutdated(backend: Backend, sequence: Uint64) {
      Sequence(backend) != sequence
    }

    function Pause(on: bool): NonceState {
      this.(paused := on)
    }

    function Reset(index: JobIndex): NonceState {
      this.(counters := if index == 0 then (0, counters.1) else (counters.0, 0), resets := resets + [index])
    }

    function Touch(): NonceState {
      this.(sequences := ((sequences.0 + 1) % WRAP, (sequences.1 + 1) % WRAP, (sequences.2 + 1) % WRAP),
            touches := touches + 1)
    }

    /** Stopping wakes the workers with outdated sequence numbers; the counters stay. */
    function Stop(): NonceState {
      this.(paused := false, sequences := (0, 0, 0), stops := stops + 1, touches := 0)
    }

    /** A worker reserves nonces; it pauses all mining when it meets the end of the range. */
    function Reserve(index: JobIndex, amount: nat, exhausted: bool): NonceState {
      var s := if exhausted then Pause(true) else this;
      s.(counters := if index == 0 then ((counters.0 + amount) % WRAP, counters.1)
                     else (counters.0, (counters.1 + amount) % WRAP))
    }
  }

  datatype State = State(
    algorithm: Option<Algorithm>, active: bool, batteryPower: bool, userActive: bool, enabled: bool, autoPause: int,
    reset: bool, job: Job, userJobId: string, ticks: Uint64, backendJob: Option<Job>, nonce: NonceState)

  datatype Event =
    | SetJob(job: Job, donate: bool, datasetReady: bool, initReady: bool)
    | DatasetReady(ready: bool)
    | Pause
    | SetEnabled(on: bool, pauseOnBattery: bool)
    | Timer(pauseOnBattery: bool, onBattery: bool, pauseOnActive: bool, isActive: bool, stopMiner: bool)
    | Stop
    | Reserve(index: JobIndex, amount: nat, exhausted: bool)

  function Initial(job: Job): State {
    State(None, false, false, false, true, 0, true, job.(index := 0), "", 0, None,
          NonceState(true, (1, 1, 1), (0, 0), [], 0, 0))
  }

  predicate SameJob(s: State, t: State) {
    s.reset == t.reset && s.job == t.job && s.userJobId == t.userJobId
  }

  predicate SamePauseFields(s: State, t: State) {
    && s.autoPause == t.autoPause && s.batteryPower == t.batteryPower
    && s.userActive == t.userActive && s.enabled == t.enabled
  }

  predicate SameCounters(s: State, t: State) {
    s.nonce.counters == t.nonce.counters && s.nonce.resets == t.nonce.resets
  }

  function HandleJobChange(s: State): (t: State)
    ensures SameJob(s, t) && SamePauseFields(s, t)
  {
    var n1 := if s.enabled then s.nonce else s.nonce.Pause(true);
    var n2 := if s.reset then n1.Reset(s.job.index) else n1;
    var n3 := n2.Touch();
    var n4 := if s.active && s.enabled then n3.Pause(false) else n3;
    s.(nonce := n4, backendJob := Some(s.job), ticks := if s.ticks == 0 then 1 else s.ticks)
  }

  function DoStop(s: State): (t: State)
    ensures SameJob(s, t) && SamePauseFields(s, t) && SameCounters(s, t)
  {
    s.(nonce := s.nonce.Stop(), backendJob := None)
  }

  function DoSetEnabled(s: State, on: bool, pauseOnBattery: bool): (t: State)
    ensures SameJob(s, t) && SameCounters(s, t)
    ensures SamePauseFields(s, t.(enabled := s.enabled))
  {
    if s.enabled == on || (pauseOnBattery && s.batteryPower && on) then s
    else
      var s' := s.(enabled := on);
      if s.active then s'.(nonce := s.nonce.Pause(!on).Touch()) else s'
  }

  /** The guard of the first branch of setJob: mining stops for a new RandomX algorithm. */
  predicate StopsMining(s: State, job: Job) {
    job.algorithm.family.RandomX? && s.algorithm != Some(job.algorithm)
  }

  function PrepareAlgorithm(s: State, job: Job, datasetReady: bool): (t: State)
    ensures SameJob(s, t) && SamePauseFields(s, t) && SameCounters(s, t)
  {
    var s' :=
      if StopsMining(s, job) then DoStop(s)
      else if job.algorithm.family.RandomX? && !datasetReady then s.(nonce := s.nonce.Pause(true).Touch())
      else s;
    s'.(algorithm := Some(job.algorithm))
  }

  function TargetIndex(donate: bool): JobIndex {
    if donate then 1 else 0
  }

  /** Whether the counter of the new job's index is to be reset. */
  predicate NeedsReset(s: State, job: Job, donate: bool, ready: bool) {
    var index := TargetIndex(donate);
    if !ready && s.job.index == index then true
    else if s.job.IsEqualBlob(job) then false
    else !(s.job.index == 1 && index == 0 && s.userJobId == job.id)
  }

  /** The part of setJob under the mutex. */
  function StoreJob(s: State, job: Job, donate: bool, initReady: bool): State {
    s.(reset := NeedsReset(s, job, donate, initReady), job := job.(index := TargetIndex(donate)),
       userJobId := if donate then s.userJobId else job.id, active := true)
  }

  function DoSetJob(s: State, job: Job, donate: bool, datasetReady: bool, initReady: bool): State {
    var stored := StoreJob(PrepareAlgorithm(s, job, datasetReady), job, donate, initReady);
    if initReady then HandleJobChange(stored) else stored
  }

  function BatteryEdge(s: State, pauseOnBattery: bool, onBattery: bool): (t: State)
    ensures SameJob(s, t) && SameCounters(s, t)
  {
    if onBattery == s.batteryPower then s
    else
      var s' := s.(batteryPower := onBattery, autoPause := s.autoPause + if onBattery then 1 else -1);
      DoSetEnabled(s', s'.autoPause == 0, pauseOnBattery)
  }

  function ActiveEdge(s: State, pauseOnBattery: bool, isActive: bool): (t: State)
    ensures SameJob(s, t) && SameCounters(s, t)
  {
    if isActive == s.userActive then s
    else
      var s' := s.(userActive := isActive, autoPause := s.autoPause + if isActive then 1 else -1);
      DoSetEnabled(s', s'.autoPause == 0, pauseOnBattery)
  }

  /** The first half of a tick. */
  function BatteryPolled(s: State, e: Event): (t: State)
    requires e.Timer?
    ensures SameJob(s, t) && SameCounters(s, t)
  {
    var s1 := s.(ticks := (s.ticks + 1) % WRAP);
    if e.pauseOnBattery then BatteryEdge(s1, e.pauseOnBattery, e.onBattery) else s1
  }

  function Polled(s: State, e: Event): (t: State)
    requires e.Timer?
    ensures SameJob(s, t) && SameCounters(s, t)
  {
    var s2 := BatteryPolled(s, e);
    if e.pauseOnActive then ActiveEdge(s2, e.pauseOnBattery, e.isActive) else s2
  }

  function DoTimer(s: State, e: Event): (t: State)
    requires e.Timer?
    ensures SameJob(s, t) && SameCounters(s, t)
  {
    if e.stopMiner then DoStop(Polled(s, e)) else Polled(s, e)
  }

  function Step(s: State, e: Event): State {
    match e
    case SetJob(job, donate, datasetReady, initReady) => DoSetJob(s, job, donate, datasetReady, initReady)
    case DatasetReady(ready) => if ready then HandleJobChange(s) else s
    case Pause => s.(active := false, nonce := s.nonce.Pause(true).Touch())
    case SetEnabled(on, pauseOnBattery) => DoSetEnabled(s, on, pauseOnBattery)
    case Timer(_, _, _, _, _) => DoTimer(s, e)
    case Stop => DoStop(s)
    case Reserve(index, amount, exhausted) => s.(nonce := s.nonce.Reserve(index, amount, exhausted))
  }

  function Run(s: State, events: seq<Event>): State {
    if events == [] then s else Step(Run(s, events[..|events| - 1]), events[|events| - 1])
  }

  lemma {:induction false} RunConcat(s: State, a: seq<Event>, b: seq<Event>)
    ensures Run(s, a + b) == Run(Run(s, a), b)
  {
    if b == [] {
      assert a + b == a;
    } else {
      assert (a + b)[..|a + b| - 1] == a + b[..|b| - 1];
      RunConcat(s, a, b[..|b| - 1]);
    }
  }

  // ---------------------------------------------------------------- the user's nonce range

  /** Events between two user jobs: donation jobs, callbacks, commands, ticks, reservations. */
  predicate KeepsDonating(events: seq<Event>) {
    forall k :: 0 <= k < |events| && events[k].SetJob? ==> events[k].donate
  }

  predicate NoNewJob(events: seq<Event>) {
    forall k :: 0 <= k < |events| ==> !events[k].SetJob?
  }

  /** The nonces that workers reserved at an index, over a list of events. */
  function Reserved(events: seq<Event>, index: JobIndex): nat {
    if events == [] then 0
    else
      var last := events[|events| - 1];
      Reserved(events[..|events| - 1], index) + if last.Reserve? && last.index == index then last.amount else 0
  }

  /** From n to m every reset hit the donation counter, and counter 0 only grew by reservations. */
  ghost predicate UserRangeKept(n: NonceState, m: NonceState, reserved: nat) {
    && |n.resets| <= |m.resets|
    && m.resets[..|n.resets|] == n.resets
    && (forall k :: |n.resets| <= k < |m.resets| ==> m.resets[k] == 1)
    && m.counters.0 == (n.counters.0 + reserved) % WRAP
  }

  /** The counter that an event resets. */
  function ResetBy(s: State, e: Event): Option<JobIndex> {
    match e
    case SetJob(job, donate, _, initReady) =>
      if initReady && NeedsReset(s, job, donate, initReady) then Some(TargetIndex(donate)) else None
    case DatasetReady(ready) => if ready && s.reset then Some(s.job.index) else None
    case _ => None
  }

  function ReservedBy(e: Event): nat {
    if e.Reserve? && e.index == 0 then e.amount else 0
  }

  lemma HandleCounters(s: State)
    ensures var n, m := s.nonce, HandleJobChange(s).nonce;
      && m.resets == n.resets + (if s.reset then [s.job.index] else [])
      && m.counters.0 == if s.reset && s.job.index == 0 then 0 else n.counters.0
  {
  }

  lemma JobCounters(s: State, e: Event)
    requires e.SetJob?
    ensures var n, m := s.nonce, Step(s, e).nonce;
      && m.resets == n.resets + (if ResetBy(s, e).Some? then [ResetBy(s, e).value] else [])
      && m.counters.0 == if ResetBy(s, e) == Some(0) then 0 else n.counters.0
  {
    hide PrepareAlgorithm, HandleJobChange;
    HandleCounters(StoreJob(PrepareAlgorithm(s, e.job, e.datasetReady), e.job, e.donate, e.initReady));
  }

  /** What an event does to the user's counter and to the history of resets. */
  lemma StepCounters(s: State, e: Event)
    ensures var n, m := s.nonce, Step(s, e).nonce;
      && m.resets == n.resets + (if ResetBy(s, e).Some? then [ResetBy(s, e).value] else [])
      && m.counters.0 == if ResetBy(s, e) == Some(0) then 0 else (n.counters.0 + ReservedBy(e)) % WRAP
  {
    hide HandleJobChange, DoSetJob, DoTimer, DoSetEnabled, DoStop, NeedsReset;
    if e.SetJob? {
      JobCounters(s, e);
    } else if e.DatasetReady? {
      HandleCounters(s);
    }
  }

  lemma JobFlags(s: State, e: Event)
    requires e.SetJob?
    ensures var t := Step(s, e);
      && t.reset == NeedsReset(s, e.job, e.donate, e.initReady)
      && t.job == e.job.(index := TargetIndex(e.donate))
      && t.userJobId == if e.donate then s.userJobId else e.job.id
  {
    hide PrepareAlgorithm, HandleJobChange;
  }

  lemma OtherEventFlags(s: State, e: Event)
    requires !e.SetJob?
    ensures SameJob(s, Step(s, e))
  {
    hide HandleJobChange, DoTimer, DoSetEnabled, DoStop;
  }

  lemma StepKeepsRange(n: NonceState, t: State, e: Event, reserved: nat)
    requires UserRangeKept(n, t.nonce, reserved) && ResetBy(t, e) != Some(0)
    ensures UserRangeKept(n, Step(t, e).nonce, reserved + ReservedBy(e))
  {
    hide Step, ResetBy, ReservedBy;
    StepCounters(t, e);
    AddModulo(n.counters.0 + reserved, ReservedBy(e), WRAP);
  }

  /** While donation jobs keep coming, the user's counter is never reset. */
  lemma {:induction false} DonatingKeepsRange(n: NonceState, t: State, events: seq<Event>, reserved: nat)
    requires UserRangeKept(n, t.nonce, reserved) && t.job.index == 1 && KeepsDonating(events)
    ensures var t' := Run(t, events);
      && UserRangeKept(n, t'.nonce, reserved + Reserved(events, 0))
      && t'.job.index == 1 && t'.userJobId == t.userJobId
  {
    if events != [] {
      hide Step;
      var init, last := events[..|events| - 1], events[|events| - 1];
      DonatingKeepsRange(n, t, init, reserved);
      StepKeepsRange(n, Run(t, init), last, reserved + Reserved(init, 0));
      if last.SetJob? {
        JobFlags(Run(t, init), last);
      } else {
        OtherEventFlags(Run(t, init), last);
      }
    }
  }

  /** Without a new job, a state whose reset flag is down keeps the user's counter. */
  lemma {:induction false} NoJobKeepsRange(n: NonceState, t: State, events: seq<Event>, reserved: nat)
    requires UserRangeKept(n, t.nonce, reserved) && !t.reset && NoNewJob(events)
    ensures UserRangeKept(n, Run(t, events).nonce, reserved + Reserved(events, 0)) && !Run(t, events).reset
  {
    if events != [] {
      hide Step;
      var init, last := events[..|events| - 1], events[|events| - 1];
      NoJobKeepsRange(n, t, init, reserved);
      StepKeepsRange(n, Run(t, init), last, reserved + Reserved(init, 0));
      OtherEventFlags(Run(t, init), last);
    }
  }

  /**
   From a user job, through any number of donation jobs with any callbacks in between, back to
   a job with the user job's id, and on until the next job: from the first donation job onward
   no reset hits counter 0, so the user's nonce range is continued.
   */
  lemma DonationContinuesUserRange(s: State, first: Event, during: seq<Event>, back: Event, after: seq<Event>)
    requires first.SetJob? && first.donate && KeepsDonating(during)
    requires back.SetJob? && !back.donate && back.job.id == s.userJobId
    requires NoNewJob(after)
    ensures UserRangeKept(s.nonce, Run(s, [first] + during + [back] + after).nonce,
                          Reserved(during, 0) + Reserved(after, 0))
  {
    hide Step, UserRangeKept, Run, Reserved, KeepsDonating, NoNewJob, NeedsReset;
    var s1 := Step(s, first);
    JobFlags(s, first);
    RangeStart(s, first);
    DonatingKeepsRange(s.nonce, s1, during, 0);
    var s2 := Run(s1, during);
    RangeOfReturn(s.nonce, s2, back, Reserved(during, 0));
    NoJobKeepsRange(s.nonce, Step(s2, back), after, Reserved(during, 0));
    RunInParts(s, first, during, back, after);
  }

  lemma RunInParts(s: State, first: Event, during: seq<Event>, back: Event, after: seq<Event>)
    ensures Run(s, [first] + during + [back] + after) == Run(Step(Run(Step(s, first), during), back), after)
  {
    hide Step;
    RunOne(s, first);
    RunConcat(s, [first], during);
    RunOne(Run(Step(s, first), during), back);
    RunConcat(s, [first] + during, [back]);
    RunConcat(s, [first] + during + [back], after);
  }

  lemma RangeOfReturn(n: NonceState, s: State, back: Event, reserved: nat)
    requires UserRangeKept(n, s.nonce, reserved) && s.job.index == 1
    requires back.SetJob? && !back.donate && back.job.id == s.userJobId
    ensures UserRangeKept(n, Step(s, back).nonce, reserved) && !Step(s, back).reset
  {
    hide Step, UserRangeKept;
    StepKeepsRange(n, s, back, reserved);
    JobFlags(s, back);
  }

  lemma RangeStart(s: State, first: Event)
    requires first.SetJob? && first.donate
    ensures UserRangeKept(s.nonce, Step(s, first).nonce, 0)
  {
    hide Step;
    StepCounters(s, first);
  }

  lemma RunOne(s: State, e: Event)
    ensures Run(s, [e]) == Step(s, e)
  {
    assert [e][..0] == [];
  }

  /** Coming back from donation resets the user's counter exactly for a new id with a new blob. */
  lemma ReturnResetsExactly(s: State, job: Job, datasetReady: bool, initReady: bool)
    requires s.job.index == 1
    ensures Step(s, SetJob(job, false, datasetReady, initReady)).reset
        <==> job.id != s.userJobId && !s.job.IsEqualBlob(job)
  {
  }

  // ---------------------------------------------------------------- automatic pausing

  function Raised(s: State): int {
    (if s.batteryPower then 1 else 0) + if s.userActive then 1 else 0
  }

  lemma {:induction false} AutoPauseCountsReasons(job: Job, events: seq<Event>)
    ensures var s := Run(Initial(job), events); s.autoPause == Raised(s)
  {
    if events != [] {
      hide Step;
      AutoPauseCountsReasons(job, events[..|events| - 1]);
      StepCountsReasons(Run(Initial(job), events[..|events| - 1]), events[|events| - 1]);
    }
  }

  lemma JobKeepsPauseFields(s: State, e: Event)
    requires e.SetJob?
    ensures SamePauseFields(s, Step(s, e))
  {
    hide PrepareAlgorithm, HandleJobChange;
  }

  lemma EdgesCountReasons(s: State, pauseOnBattery: bool, now: bool)
    requires s.autoPause == Raised(s)
    ensures var t := BatteryEdge(s, pauseOnBattery, now); t.autoPause == Raised(t)
    ensures var t := ActiveEdge(s, pauseOnBattery, now); t.autoPause == Raised(t)
  {
    hide DoSetEnabled;
  }

  lemma TimerCountsReasons(s: State, e: Event)
    requires e.Timer? && s.autoPause == Raised(s)
    ensures DoTimer(s, e).autoPause == Raised(DoTimer(s, e))
  {
    hide BatteryEdge, ActiveEdge, DoStop;
    EdgesCountReasons(s.(ticks := (s.ticks + 1) % WRAP), e.pauseOnBattery, e.onBattery);
    EdgesCountReasons(BatteryPolled(s, e), e.pauseOnBattery, e.isActive);
  }

  lemma StepCountsReasons(s: State, e: Event)
    requires s.autoPause == Raised(s)
    ensures Step(s, e).autoPause == Raised(Step(s, e))
  {
    hide DoSetJob, DoTimer, HandleJobChange, DoSetEnabled, DoStop;
    if e.SetJob? {
      JobKeepsPauseFields(s, e);
    } else if e.Timer? {
      TimerCountsReasons(s, e);
    }
  }

  predicate ReasonFlips(s: State, t: State) {
    s.batteryPower != t.batteryPower || s.userActive != t.userActive
  }

  lemma BatteryEdgeDecides(s: State, pauseOnBattery: bool, now: bool)
    requires s.autoPause == Raised(s)
    ensures var t := BatteryEdge(s, pauseOnBattery, now);
      && t.batteryPower == now && t.userActive == s.userActive && t.active == s.active
      && (t.enabled <==> if now != s.batteryPower then Raised(t) == 0 else s.enabled)
  {
  }

  lemma ActiveEdgeDecides(s: State, pauseOnBattery: bool, now: bool)
    requires s.autoPause == Raised(s)
    ensures var t := ActiveEdge(s, pauseOnBattery, now);
      && t.userActive == now && t.batteryPower == s.batteryPower && t.active == s.active
      && (t.enabled <==> if now != s.userActive then Raised(t) == 0 else s.enabled)
  {
  }

  /** What a tick leaves: reasons as polled, and mining enabled by them if one of them has changed. */
  predicate Decided(s: State, e: Event, t: State)
    requires e.Timer?
  {
    && t.batteryPower == (if e.pauseOnBattery then e.onBattery else s.batteryPower)
    && t.userActive == (if e.pauseOnActive then e.isActive else s.userActive)
    && t.active == s.active
    && (t.enabled <==> if ReasonFlips(s, t) then Raised(t) == 0 else s.enabled)
  }

  lemma TimerDecides(s: State, e: Event)
    requires e.Timer? && s.autoPause == Raised(s)
    ensures Decided(s, e, Step(s, e))
  {
    hide BatteryPolled, ActiveEdge;
    var s2 := BatteryPolled(s, e);
    BatteryPolledDecides(s, e);
    ActiveEdgeDecides(s2, e.pauseOnBattery, e.isActive);
  }

  lemma BatteryPolledDecides(s: State, e: Event)
    requires e.Timer? && s.autoPause == Raised(s)
    ensures var t := BatteryPolled(s, e);
      && Decided(s, e.(pauseOnActive := false), t) && t.autoPause == Raised(t)
  {
    hide BatteryEdge;
    var s1 := s.(ticks := (s.ticks + 1) % WRAP);
    EdgesCountReasons(s1, e.pauseOnBattery, e.onBattery);
    BatteryEdgeDecides(s1, e.pauseOnBattery, e.onBattery);
  }

  /** In every run a tick at which a reason changes leaves mining enabled exactly if none is raised. */
  lemma TickDecides(job: Job, events: seq<Event>, e: Event)
    requires e.Timer?
    ensures var s, t := Run(Initial(job), events), Run(Initial(job), events + [e]); Decided(s, e, t)
  {
    hide Step, Decided;
    AutoPauseCountsReasons(job, events);
    TimerDecides(Run(Initial(job), events), e);
    assert (events + [e])[..|events|] == events;
  }

  predicate BatterySafe(s: State) {
    s.batteryPower ==> !s.enabled
  }

  /** A command that turns mining on, on battery power, with pause-on-battery off. */
  predicate Resumes(s: State, e: Event) {
    e.SetEnabled? && e.on && !e.pauseOnBattery && s.batteryPower
  }

  /** A run none of whose events is such a command in the state that it meets. */
  predicate NeverResumes(s: State, events: seq<Event>) {
    events == [] ||
    (NeverResumes(s, events[..|events| - 1]) && !Resumes(Run(s, events[..|events| - 1]), events[|events| - 1]))
  }

  /** The property holds at the start of a run and behind each of its events. */
  predicate AlwaysBatterySafe(s: State, events: seq<Event>) {
    forall k :: 0 <= k <= |events| ==> BatterySafe(Run(s, events[..k]))
  }

  lemma AlwaysBehindLast(s: State, events: seq<Event>)
    requires events != []
    ensures var init := events[..|events| - 1];
      && (AlwaysBatterySafe(s, events) <==> AlwaysBatterySafe(s, init) && BatterySafe(Run(s, events)))
      && (AlwaysBatterySafe(s, init) ==> BatterySafe(Run(s, init)))
  {
    hide Run, BatterySafe;
    var init := events[..|events| - 1];
    assert forall k :: 0 <= k <= |init| ==> init[..k] == events[..k];
    assert events[..|events|] == events;
  }

  /** Battery power never meets enabled mining in a run if and only if no command in it resumes mining there. */
  lemma {:induction false} MinesOnBatteryExactly(job: Job, events: seq<Event>)
    ensures AlwaysBatterySafe(Initial(job), events) <==> NeverResumes(Initial(job), events)
  {
    if events != [] {
      var init, last := events[..|events| - 1], events[|events| - 1];
      hide Step, Resumes, BatterySafe;
      MinesOnBatteryExactly(job, init);
      AlwaysBehindLast(Initial(job), events);
      AutoPauseCountsReasons(job, init);
      if NeverResumes(Initial(job), init) {
        StepRespectsBattery(Run(Initial(job), init), last);
      }
    }
  }

  lemma StepRespectsBattery(s: State, e: Event)
    requires BatterySafe(s) && s.autoPause == Raised(s)
    ensures BatterySafe(Step(s, e)) <==> !Resumes(s, e)
  {
    hide HandleJobChange, DoSetJob, DoTimer, DoStop;
    if e.SetJob? {
      JobKeepsPauseFields(s, e);
    } else if e.Timer? {
      hide Step;
      TimerDecides(s, e);
    }
  }

  /** With pause-on-battery on at every command that turns mining on, nothing resumes it on battery. */
  lemma NeverMinesOnBattery(job: Job, events: seq<Event>)
    requires forall k :: 0 <= k < |events| && events[k].SetEnabled? && events[k].on ==> events[k].pauseOnBattery
    ensures var s := Run(Initial(job), events); s.batteryPower ==> !s.enabled
  {
    OptionNeverResumes(Initial(job), events);
    MinesOnBatteryExactly(job, events);
    hide Run;
    assert events[..|events|] == events;
  }

  lemma {:induction false} OptionNeverResumes(s: State, events: seq<Event>)
    requires forall k :: 0 <= k < |events| && events[k].SetEnabled? && events[k].on ==> events[k].pauseOnBattery
    ensures NeverResumes(s, events)
  {
    hide Run;
    if events != [] {
      OptionNeverResumes(s, events[..|events| - 1]);
    }
  }

  /** A user command on battery power resumes mining exactly when the option has been turned off. */
  lemma ResumeOnBattery(s: State, pauseOnBattery: bool)
    requires s.batteryPower && !s.enabled
    ensures Step(s, SetEnabled(true, pauseOnBattery)).enabled <==> !pauseOnBattery
  {
  }

  /** One command with the option off is enough: mining on battery power, after a run with it on. */
  lemma OptionIsNeeded(job: Job)
    ensures var s := Run(Initial(job), [Timer(true, true, false, false, false), SetEnabled(true, false)]);
      s.batteryPower && s.enabled
  {
    var tick, command := Timer(true, true, false, false, false), SetEnabled(true, false);
    assert [tick, command][..1] == [tick];
    RunOne(Initial(job), tick);
  }

  // ---------------------------------------------------------------- unpaused means mining is wanted

  predicate PauseSafe(s: State) {
    !s.nonce.paused ==> s.active && s.enabled
  }

  predicate CallsStop(s: State, e: Event) {
    e.Stop? || (e.Timer? && e.stopMiner) || (e.SetJob? && StopsMining(s, e.job))
  }

  /** A run none of whose events calls stop. */
  predicate NeverStops(s: State, events: seq<Event>) {
    events == [] ||
    (NeverStops(s, events[..|events| - 1]) && !CallsStop(Run(s, events[..|events| - 1]), events[|events| - 1]))
  }

  lemma EdgesKeepPauseSafe(s: State, pauseOnBattery: bool, now: bool)
    requires PauseSafe(s)
    ensures PauseSafe(BatteryEdge(s, pauseOnBattery, now)) && PauseSafe(ActiveEdge(s, pauseOnBattery, now))
  {
    hide DoSetEnabled;
    var battery := s.(batteryPower := now, autoPause := s.autoPause + if now then 1 else -1);
    EnableKeepsPauseSafe(battery, battery.autoPause == 0, pauseOnBattery);
    var active := s.(userActive := now, autoPause := s.autoPause + if now then 1 else -1);
    EnableKeepsPauseSafe(active, active.autoPause == 0, pauseOnBattery);
  }

  lemma EnableKeepsPauseSafe(s: State, on: bool, pauseOnBattery: bool)
    requires PauseSafe(s)
    ensures PauseSafe(DoSetEnabled(s, on, pauseOnBattery))
  {
  }

  lemma TimerKeepsPauseSafe(s: State, e: Event)
    requires e.Timer? && !e.stopMiner && PauseSafe(s)
    ensures PauseSafe(DoTimer(s, e))
  {
    hide BatteryEdge, ActiveEdge;
    EdgesKeepPauseSafe(s.(ticks := (s.ticks + 1) % WRAP), e.pauseOnBattery, e.onBattery);
    EdgesKeepPauseSafe(BatteryPolled(s, e), e.pauseOnBattery, e.isActive);
  }

  lemma StepKeepsPauseSafe(s: State, e: Event)
    requires PauseSafe(s) && !CallsStop(s, e)
    ensures PauseSafe(Step(s, e))
  {
    hide DoSetJob, DoTimer;
    if e.SetJob? {
      PauseSafeAfterSetJob(s, e);
    } else if e.Timer? {
      TimerKeepsPauseSafe(s, e);
    }
  }

  lemma {:induction false} PauseSafeKept(s: State, events: seq<Event>)
    requires PauseSafe(s) && NeverStops(s, events)
    ensures PauseSafe(Run(s, events))
  {
    if events != [] {
      hide Step;
      PauseSafeKept(s, events[..|events| - 1]);
      StepKeepsPauseSafe(Run(s, events[..|events| - 1]), events[|events| - 1]);
    }
  }

  /** A job that is ready at once establishes the property whatever came before, stop included. */
  lemma ReadyJobEstablishesPauseSafe(s: State, e: Event)
    requires e.SetJob? && e.initReady
    ensures PauseSafe(Step(s, e)) && (Step(s, e).nonce.paused <==> !s.enabled)
  {
  }

  /** Any other job leaves the property in place exactly under this condition on the state before it. */
  lemma PauseSafeAfterSetJob(s: State, e: Event)
    requires e.SetJob?
    ensures PauseSafe(Step(s, e)) <==>
              || e.initReady
              || s.enabled
              || (!StopsMining(s, e.job) && (s.nonce.paused || (e.job.algorithm.family.RandomX? && !e.datasetReady)))
  {
  }

  /** The first RandomX job, before its dataset is ready, stops mining that a command has just turned off. */
  lemma UnreadyJobUnpauses(first: Job, job: Job)
    requires job.algorithm.family.RandomX?
    ensures var off, arrival := SetEnabled(false, false), SetJob(job, false, false, false);
      PauseSafe(Run(Initial(first), [off])) && !PauseSafe(Run(Initial(first), [off, arrival]))
  {
    var off, arrival := SetEnabled(false, false), SetJob(job, false, false, false);
    assert [off, arrival][..1] == [off];
    RunOne(Initial(first), off);
    PauseSafeAfterSetJob(Run(Initial(first), [off]), arrival);
    hide DoSetJob;
  }

  /** stop lifts the pause: the property survives it exactly while mining is wanted anyway. */
  lemma PauseSafeAfterStop(s: State)
    ensures PauseSafe(Step(s, Stop)) <==> s.active && s.enabled
  {
  }

  /** A tick at which a backend asks for a stop, in every run. */
  lemma PauseSafeAfterStoppingTick(job: Job, events: seq<Event>, e: Event)
    requires e.Timer? && e.stopMiner
    ensures var s, t := Run(Initial(job), events), Run(Initial(job), events + [e]);
      PauseSafe(t) <==> s.active && if ReasonFlips(s, t) then Raised(t) == 0 else s.enabled
  {
    TickDecides(job, events, e);
    assert (events + [e])[..|events|] == events;
    hide BatteryEdge, ActiveEdge, Run;
  }

  /** A stop before the first job leaves mining unpaused although nothing is to be mined. */
  lemma FirstStopUnpauses(job: Job)
    ensures PauseSafe(Initial(job)) && !PauseSafe(Run(Initial(job), [Stop]))
  {
    RunOne(Initial(job), Stop);
  }

  // ---------------------------------------------------------------- outdated workers

  /** The events after which the backends have the miner's current job. */
  predicate HandsOver(e: Event) {
    (e.SetJob? && e.initReady) || (e.DatasetReady? && e.ready)
  }

  /** Sequence numbers start at one, and at zero after a stop; from there they count touches. */
  function Turns(n: NonceState): nat {
    (if n.stops == 0 then 1 else 0) + n.touches
  }

  predicate SequencesCount(n: NonceState) {
    n.sequences == (Turns(n) % WRAP, Turns(n) % WRAP, Turns(n) % WRAP)
  }

  /** No stop, and between lo and hi more touches. */
  predicate Touched(n: NonceState, m: NonceState, lo: nat, hi: nat) {
    m.stops == n.stops && n.touches + lo <= m.touches <= n.touches + hi
  }

  lemma TouchCounts(n: NonceState)
    requires SequencesCount(n)
    ensures SequencesCount(n.Touch())
  {
    AddModulo(Turns(n), 1, WRAP);
  }

  lemma StopCounts(n: NonceState)
    ensures SequencesCount(n.Stop())
  {
  }

  lemma HandleCounts(s: State)
    ensures SequencesCount(s.nonce) ==> SequencesCount(HandleJobChange(s).nonce)
    ensures Touched(s.nonce, HandleJobChange(s).nonce, 1, 1)
  {
    hide SequencesCount;
    if SequencesCount(s.nonce) {
      var n := if s.enabled then s.nonce else s.nonce.Pause(true);
      var reset := if s.reset then n.Reset(s.job.index) else n;
      SameSequences(s.nonce, reset);
      TouchCounts(reset);
      SameSequences(reset.Touch(), HandleJobChange(s).nonce);
    }
  }

  lemma SameSequences(n: NonceState, m: NonceState)
    requires n.sequences == m.sequences && n.stops == m.stops && n.touches == m.touches
    ensures SequencesCount(n) <==> SequencesCount(m)
  {
  }

  lemma PrepareCounts(s: State, job: Job, datasetReady: bool)
    requires SequencesCount(s.nonce)
    ensures var n := PrepareAlgorithm(s, job, datasetReady).nonce;
      SequencesCount(n) && (!StopsMining(s, job) ==> Touched(s.nonce, n, 0, 1))
  {
    hide SequencesCount;
    StopCounts(s.nonce);
    SameSequences(s.nonce, s.nonce.Pause(true));
    TouchCounts(s.nonce.Pause(true));
  }

  lemma EnableCounts(s: State, on: bool, pauseOnBattery: bool)
    requires SequencesCount(s.nonce)
    ensures var n := DoSetEnabled(s, on, pauseOnBattery).nonce; SequencesCount(n) && Touched(s.nonce, n, 0, 1)
  {
    hide SequencesCount;
    SameSequences(s.nonce, s.nonce.Pause(!on));
    TouchCounts(s.nonce.Pause(!on));
  }

  lemma EdgesCount(s: State, pauseOnBattery: bool, now: bool)
    requires SequencesCount(s.nonce)
    ensures var n := BatteryEdge(s, pauseOnBattery, now).nonce; SequencesCount(n) && Touched(s.nonce, n, 0, 1)
    ensures var n := ActiveEdge(s, pauseOnBattery, now).nonce; SequencesCount(n) && Touched(s.nonce, n, 0, 1)
  {
    hide SequencesCount, DoSetEnabled;
    var battery := s.(batteryPower := now, autoPause := s.autoPause + if now then 1 else -1);
    EnableCounts(battery, battery.autoPause == 0, pauseOnBattery);
    var active := s.(userActive := now, autoPause := s.autoPause + if now then 1 else -1);
    EnableCounts(active, active.autoPause == 0, pauseOnBattery);
  }

  lemma TimerCounts(s: State, e: Event)
    requires e.Timer? && SequencesCount(s.nonce)
    ensures SequencesCount(DoTimer(s, e).nonce)
    ensures !e.stopMiner ==> Touched(s.nonce, DoTimer(s, e).nonce, 0, 2)
  {
    hide SequencesCount, BatteryEdge, ActiveEdge;
    EdgesCount(s.(ticks := (s.ticks + 1) % WRAP), e.pauseOnBattery, e.onBattery);
    EdgesCount(BatteryPolled(s, e), e.pauseOnBattery, e.isActive);
    StopCounts(Polled(s, e).nonce);
  }

  lemma JobCounts(s: State, e: Event)
    requires e.SetJob? && SequencesCount(s.nonce)
    ensures SequencesCount(Step(s, e).nonce)
    ensures !StopsMining(s, e.job) ==> Touched(s.nonce, Step(s, e).nonce, if e.initReady then 1 else 0, 2)
  {
    hide SequencesCount, PrepareAlgorithm, HandleJobChange, StopsMining;
    PrepareCounts(s, e.job, e.datasetReady);
    HandleCounts(StoreJob(PrepareAlgorithm(s, e.job, e.datasetReady), e.job, e.donate, e.initReady));
  }

  lemma StepCounts(s: State, e: Event)
    requires SequencesCount(s.nonce)
    ensures SequencesCount(Step(s, e).nonce)
    ensures !CallsStop(s, e) ==> Touched(s.nonce, Step(s, e).nonce, if HandsOver(e) then 1 else 0, 2)
  {
    hide SequencesCount, DoTimer, DoSetJob, DoSetEnabled, HandleJobChange, StopsMining;
    match e
    case SetJob(_, _, _, _) => JobCounts(s, e);
    case DatasetReady(_) => HandleCounts(s);
    case Pause =>
      SameSequences(s.nonce, s.nonce.Pause(true));
      TouchCounts(s.nonce.Pause(true));
    case SetEnabled(on, pauseOnBattery) => EnableCounts(s, on, pauseOnBattery);
    case Timer(_, _, _, _, _) => TimerCounts(s, e);
    case Stop => StopCounts(s.nonce);
    case Reserve(index, amount, exhausted) => SameSequences(s.nonce, Step(s, e).nonce);
  }

  lemma {:induction false} RunCounts(job: Job, events: seq<Event>)
    ensures SequencesCount(Run(Initial(job), events).nonce)
  {
    if events != [] {
      hide Step, SequencesCount;
      RunCounts(job, events[..|events| - 1]);
      StepCounts(Run(Initial(job), events[..|events| - 1]), events[|events| - 1]);
    }
  }

  predicate HandsOverSome(events: seq<Event>) {
    exists k :: 0 <= k < |events| && HandsOver(events[k])
  }

  lemma {:induction false} RunTouches(s: State, events: seq<Event>)
    requires SequencesCount(s.nonce) && NeverStops(s, events)
    ensures SequencesCount(Run(s, events).nonce)
    ensures Touched(s.nonce, Run(s, events).nonce, if HandsOverSome(events) then 1 else 0, 2 * |events|)
  {
    if events != [] {
      hide Step, SequencesCount, CallsStop, HandsOverSome;
      var init, last := events[..|events| - 1], events[|events| - 1];
      RunTouches(s, init);
      StepCounts(Run(s, init), last);
      LastHandsOver(events);
    }
  }

  lemma LastHandsOver(events: seq<Event>)
    requires events != []
    ensures HandsOverSome(events) <==> HandsOverSome(events[..|events| - 1]) || HandsOver(events[|events| - 1])
  {
    hide HandsOver;
    assert forall k :: 0 <= k < |events| - 1 ==> events[..|events| - 1][k] == events[k];
  }

  /**
   In every run without a stop, which would end the workers, a worker that took its job before a
   job change is outdated after it, whatever else happened: no number comes round again so soon.
   */
  lemma JobChangeOutdates(job: Job, before: seq<Event>, events: seq<Event>, backend: Backend)
    requires NeverStops(Run(Initial(job), before), events) && HandsOverSome(events)
    requires 2 * |events| < WRAP
    ensures var n := Run(Initial(job), before).nonce;
      Run(Initial(job), before + events).nonce.IsOutdated(backend, n.Sequence(backend))
  {
    hide Run, NeverStops, HandsOverSome, SequencesCount, Touched, NonceState.IsOutdated;
    RunConcat(Initial(job), before, events);
    RunCounts(job, before);
    RunTouches(Run(Initial(job), before), events);
    AheadIsOutdated(Run(Initial(job), before).nonce, Run(Initial(job), before + events).nonce, 2 * |events|, backend);
  }

  lemma AheadIsOutdated(n: NonceState, m: NonceState, hi: nat, backend: Backend)
    requires SequencesCount(n) && SequencesCount(m) && Touched(n, m, 1, hi) && hi < WRAP
    ensures m.IsOutdated(backend, n.Sequence(backend))
  {
    AheadDiffers(Turns(n), Turns(m) - Turns(n));
  }

  lemma AheadDiffers(a: nat, k: nat)
    requires 0 < k < WRAP
    ensures (a + k) % WRAP != a % WRAP
  {
  }
}
