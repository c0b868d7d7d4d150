/**
 The miner object. Its methods change the pause and job fields and the global nonce state
 in the order of the code; each one is proved to perform one transition of MinerState.
 */
module Miner {
  import opened Jobs
  import opened MinerState
  import opened Options

  /** The global nonce state shared with the worker threads. */
  class Nonce {
    var paused: bool
    var sequences: (Uint64, Uint64, Uint64)
    var counters: (Uint64, Uint64)
    ghost var resets: seq<JobIndex>
    ghost var stops: nat
    ghost var touches: nat

    constructor ()
      ensures View() == NonceState(true, (1, 1, 1), (0, 0), [], 0, 0)
    {
      paused, sequences, counters := true, (1, 1, 1), (0, 0);
      resets, stops, touches := [], 0, 0;
    }

    ghost function View(): NonceState
      reads this
    {
      NonceState(paused, sequences, counters, resets, stops, touches)
    }

    method SetPaused(on: bool)
      modifies this
      ensures View() == old(View()).Pause(on)
    {
      paused := on;
    }

    method Reset(index: JobIndex)
      modifies this
      ensures View() == old(View()).Reset(index)
    {
      counters := if index == 0 then (0, counters.1) else (counters.0, 0);
      resets := resets + [index];
    }

    method Touch()
      modifies this
      ensures View() == old(View()).Touch()
    {
      sequences := ((sequences.0 + 1) % WRAP, (sequences.1 + 1) % WRAP, (sequences.2 + 1) % WRAP);
      touches := touches + 1;
    }

    method Stop()
      modifies this
      ensures View() == old(View()).Stop()
    {
      SetPaused(false);
      sequences := (0, 0, 0);
      stops, touches := stops + 1, 0;
    }
  }

  class Miner {
    const nonce: Nonce
    var algorithm: Option<Algorithm>
    var active: bool
    var batteryPower: bool
    var userActive: bool
    var enabled: bool
    var autoPause: int
    var reset: bool
    var job: Job
    var userJobId: string
    var ticks: Uint64
    var backendJob: Option<Job>

    constructor (job: Job)
      ensures View() == Initial(job) && fresh(nonce)
    {
      nonce := new Nonce();
      algorithm, active, batteryPower, userActive, enabled := None, false, false, false, true;
      autoPause, reset, this.job, userJobId, ticks, backendJob := 0, true, job.(index := 0), "", 0, None;
    }

    ghost function View(): State
      reads this, nonce
    {
      State(algorithm, active, batteryPower, userActive, enabled, autoPause, reset, job, userJobId, ticks,
            backendJob, nonce.View())
    }

    method JobChanged()
      modifies this, nonce
      ensures View() == HandleJobChange(old(View()))
    {
      if !enabled {
        nonce.SetPaused(true);
      }
      if reset {
        nonce.Reset(job.index);
      }
      backendJob := Some(job);
      nonce.Touch();
      if active && enabled {
        nonce.SetPaused(false);
      }
      if ticks == 0 {
        ticks := 1;
      }
    }

    method PauseMining()
      modifies this, nonce
      ensures View() == Step(old(View()), Pause)
    {
      active := false;
      nonce.SetPaused(true);
      nonce.Touch();
    }

    method Enable(on: bool, pauseOnBattery: bool)
      modifies this, nonce
      ensures View() == DoSetEnabled(old(View()), on, pauseOnBattery)
    {
      if enabled == on {
        return;
      }
      if pauseOnBattery && batteryPower && on {
        return;
      }
      enabled := on;
      if !active {
        return;
      }
      nonce.SetPaused(!on);
      nonce.Touch();
    }

    method StopMining()
      modifies this, nonce
      ensures View() == DoStop(old(View()))
    {
      nonce.Stop();
      backendJob := None;
    }

    method ApplyAlgorithm(newJob: Job, datasetReady: bool)
      modifies this, nonce
      ensures View() == PrepareAlgorithm(old(View()), newJob, datasetReady)
    {
      if newJob.algorithm.family.RandomX? {
        if algorithm != Some(newJob.algorithm) {
          StopMining();
        } else if !datasetReady {
          nonce.SetPaused(true);
          nonce.Touch();
        }
      }
      algorithm := Some(newJob.algorithm);
    }

    method KeepJob(newJob: Job, donate: bool, initReady: bool)
      modifies this
      ensures View() == StoreJob(old(View()), newJob, donate, initReady)
    {
      var index: JobIndex := if donate then 1 else 0;
      var sameJobIndex := job.index == index;
      reset := !(job.index == 1 && index == 0 && userJobId == newJob.id);
      if job.IsEqualBlob(newJob) {
        reset := false;
      }
      job := newJob.(index := index);
      if index == 0 {
        userJobId := newJob.id;
      }
      if !initReady && sameJobIndex {
        reset := true;
      }
      active := true;
    }

    method AssignJob(newJob: Job, donate: bool, datasetReady: bool, initReady: bool)
      modifies this, nonce
      ensures View() == Step(old(View()), SetJob(newJob, donate, datasetReady, initReady))
    {
      hide PrepareAlgorithm, HandleJobChange, StoreJob;
      ApplyAlgorithm(newJob, datasetReady);
      KeepJob(newJob, donate, initReady);
      if initReady {
        JobChanged();
      }
    }

    method OnDatasetReady(ready: bool)
      modifies this, nonce
      ensures View() == Step(old(View()), DatasetReady(ready))
    {
      if !ready {
        return;
      }
      JobChanged();
    }

    method AutoPauseBattery(pause: bool, pauseOnBattery: bool)
      modifies this, nonce
      ensures View() == BatteryEdge(old(View()), pauseOnBattery, pause)
    {
      if (pause && !batteryPower) || (!pause && batteryPower) {
        batteryPower := pause;
        autoPause := autoPause + if pause then 1 else -1;
        Enable(autoPause == 0, pauseOnBattery);
      }
    }

    method AutoPauseActive(pause: bool, pauseOnBattery: bool)
      modifies this, nonce
      ensures View() == ActiveEdge(old(View()), pauseOnBattery, pause)
    {
      if (pause && !userActive) || (!pause && userActive) {
        userActive := pause;
        autoPause := autoPause + if pause then 1 else -1;
        Enable(autoPause == 0, pauseOnBattery);
      }
    }

    method OnTimer(pauseOnBattery: bool, onBattery: bool, pauseOnActive: bool, isActive: bool, stopMiner: bool)
      modifies this, nonce
      ensures View() == Step(old(View()), Timer(pauseOnBattery, onBattery, pauseOnActive, isActive, stopMiner))
    {
      ticks := (ticks + 1) % WRAP;
      hide BatteryEdge, ActiveEdge, DoStop;
      if pauseOnBattery {
        AutoPauseBattery(onBattery, pauseOnBattery);
      }
      if pauseOnActive {
        AutoPauseActive(isActive, pauseOnBattery);
      }
      if stopMiner {
        StopMining();
      }
    }
  }
}
