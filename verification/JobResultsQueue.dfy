/**
 The handler object behind JobResults: two queues, a coalescing wake-up, the listener and
 the batons. Each method performs its steps in the order of the code, and every step is
 matched by one transition of the state machine, so the object is always in a reachable
 state of the pipeline.
 */
module JobResultsQueue {
  import opened Jobs
  import opened Rehash
  import opened ResultPipeline

  class JobResultsHandler {
    const rig: Rig
    var results: seq<JobResult>
    var bundles: seq<Bundle>
    var wakeUp: bool
    var batons: seq<Baton>
    var log: seq<JobResult>

    ghost var actions: seq<Action>
    ghost var state: State

    ghost predicate Matches(loop: Loop)
      reads this
    {
      && Reaches(rig, actions, state)
      && state.loop == loop && state.mutex.Free?
      && state.results == results && state.bundles == bundles && state.wakeUp == wakeUp && state.batons == batons
      && Logged(state.delivered) == log
    }

    ghost predicate Valid()
      reads this
    {
      Matches(Waiting)
    }

    constructor (rig: Rig)
      ensures Valid() && this.rig == rig
      ensures results == [] && bundles == [] && !wakeUp && batons == [] && log == []
    {
      this.rig := rig;
      results, bundles, wakeUp, batons, log := [], [], false, [], [];
      actions, state := [], INITIAL;
    }

    ghost method Take(a: Action)
      requires Reaches(rig, actions, state) && Enabled(state, a)
      modifies `actions, `state
      ensures state == Step(rig, old(state), a) && Reaches(rig, actions, state)
    {
      actions, state := actions + [a], Step(rig, state, a);
      assert actions[..|actions| - 1] == old(actions);
    }

    method SubmitResult(result: JobResult)
      requires Valid()
      modifies this
      ensures Valid()
      ensures results == old(results) + [result] && wakeUp
      ensures bundles == old(bundles) && batons == old(batons) && log == old(log)
      ensures state.pushedResults == old(state.pushedResults) + [result]
    {
      Take(Acquire(ResultItem(result)));
      results := results + [result];
      Take(Push);
      wakeUp := true;
      Take(Send);
      Take(Release);
    }

    method SubmitBundle(job: Job, nonces: seq<Uint32>)
      requires Valid()
      modifies this
      ensures Valid()
      ensures bundles == old(bundles) + [Bundle(job, nonces)] && wakeUp
      ensures results == old(results) && batons == old(batons) && log == old(log)
      ensures state.pushedBundles == old(state.pushedBundles) + [Bundle(job, nonces)]
    {
      Take(Acquire(BundleItem(Bundle(job, nonces))));
      bundles := bundles + [Bundle(job, nonces)];
      Take(Push);
      wakeUp := true;
      Take(Send);
      Take(Release);
    }

    /** Async clears its flag before it calls back; the callback then takes the mutex. */
    method WakeAndLock()
      requires Valid() && wakeUp
      modifies `wakeUp, `actions, `state
      ensures !wakeUp && Reaches(rig, actions, state)
      ensures state == old(state).(wakeUp := false, mutex := HeldByLoop, loop := Locked)
    {
      wakeUp := false;
      Take(Wake);
      Take(Lock);
    }

    method SwapQueues() returns (localBundles: seq<Bundle>, localResults: seq<JobResult>)
      requires Valid() && wakeUp
      modifies this
      ensures Matches(Delivering(localBundles, localResults))
      ensures localBundles == old(bundles) && localResults == old(results)
      ensures results == [] && bundles == [] && !wakeUp && batons == old(batons) && log == old(log)
    {
      WakeAndLock();
      localBundles, bundles := bundles, [];
      Take(SwapBundles);
      localResults, results := results, [];
      Take(SwapResults);
      Take(Unlock);
    }

    method DeliverResult(localBundles: seq<Bundle>, localResults: seq<JobResult>)
      requires Matches(Delivering(localBundles, localResults)) && localResults != []
      modifies `log, `actions, `state
      ensures Matches(Delivering(localBundles, localResults[1..]))
      ensures log == old(log) + [localResults[0]]
    {
      log := log + [localResults[0]];
      LoggedAppend(state.delivered, Delivery(Direct, localResults[0]));
      Take(Deliver);
    }

    method DeliverResults(localBundles: seq<Bundle>, localResults: seq<JobResult>)
      requires Matches(Delivering(localBundles, localResults))
      modifies `log, `actions, `state
      ensures Matches(Delivering(localBundles, []))
      ensures log == old(log) + localResults
    {
      hide Matches;
      for k := 0 to |localResults|
        invariant Matches(Delivering(localBundles, localResults[k..]))
        invariant log == old(log) + localResults[..k]
      {
        DeliverResult(localBundles, localResults[k..]);
        assert localResults[k..][1..] == localResults[k + 1..];
      }
      assert localResults[|localResults|..] == [];
    }

    /** The bundles of a swap become a baton, unless there are none. */
    method QueueWork(localBundles: seq<Bundle>)
      requires Matches(Delivering(localBundles, []))
      modifies `batons, `actions, `state
      ensures Valid()
      ensures batons == old(batons) + if localBundles == [] then [] else [Baton([], localBundles, [], 0, Working)]
    {
      Take(FinishDelivery);
      if localBundles != [] {
        batons := batons + [Baton([], localBundles, [], 0, Working)];
      }
    }

    method OnAsync()
      requires Valid() && wakeUp
      modifies this
      ensures Valid()
      ensures results == [] && bundles == [] && !wakeUp
      ensures log == old(log) + old(results)
      ensures batons == old(batons) + if old(bundles) == [] then [] else [Baton([], old(bundles), [], 0, Working)]
    {
      hide Matches;
      var localBundles, localResults := SwapQueues();
      DeliverResults(localBundles, localResults);
      QueueWork(localBundles);
    }

    /** The worker takes the next bundle of a baton and re-hashes its nonces, adding to the baton's own lists. */
    method HashNext(i: nat, ready: bool)
      requires Valid() && i < |batons| && batons[i].phase.Working? && batons[i].todo != []
      modifies this
      ensures Valid()
      ensures batons == old(batons)[i := AfterHashing(rig, old(batons)[i], ready)]
      ensures results == old(results) && bundles == old(bundles) && wakeUp == old(wakeUp) && log == old(log)
    {
      hide Reaches, Logged, Accepted, Rejected;
      var b := batons[i];
      var next := b.todo[0];
      var bundle := new JobBundle(next.job, next.nonces);
      var worker := new JobBaton(rig);
      worker.results, worker.errors := b.results, b.errors;
      worker.GetResults(bundle, ready);
      batons := batons[i := b.(done := b.done + [Done(next, ready)], todo := b.todo[1..],
                               results := worker.results, errors := worker.errors)];
      Take(HashBundle(i, ready));
    }

    method DeliverReturnedResult(i: nat)
      requires Matches(Completing(i)) && i < |batons| && batons[i].results != []
      modifies `log, `batons, `actions, `state
      ensures Matches(Completing(i))
      ensures log == old(log) + [old(batons)[i].results[0]]
      ensures batons == old(batons)[i := old(batons)[i].(results := old(batons)[i].results[1..])]
    {
      var result := batons[i].results[0];
      log := log + [result];
      LoggedAppend(state.delivered, Delivery(FromBaton(i), result));
      batons := batons[i := batons[i].(results := batons[i].results[1..])];
      Take(DeliverReturned);
    }

    /** Delivers the results of a baton whose work is over, on the loop thread. */
    method DeliverBaton(i: nat)
      requires Matches(Completing(i)) && i < |batons|
      modifies `log, `batons, `actions, `state
      ensures Matches(Completing(i))
      ensures log == old(log) + old(batons)[i].results
      ensures batons == old(batons)[i := old(batons)[i].(results := [])]
    {
      var pending := batons[i].results;
      for k := 0 to |pending|
        invariant Matches(Completing(i))
        invariant log == old(log) + pending[..k]
        invariant batons == old(batons)[i := old(batons)[i].(results := pending[k..])]
      {
        DeliverReturnedResult(i);
        assert pending[k..][1..] == pending[k + 1..];
      }
      assert pending[|pending|..] == [];
    }

    /** The after-work callback of a baton. */
    method OnWorkDone(i: nat)
      requires Valid() && i < |batons| && batons[i].phase.Working? && batons[i].todo == []
      modifies this
      ensures Valid()
      ensures log == old(log) + old(batons)[i].results
      ensures batons == old(batons)[i := old(batons)[i].(results := [], phase := Deleted)]
      ensures results == old(results) && bundles == old(bundles) && wakeUp == old(wakeUp)
    {
      hide Reaches, Logged;
      batons := batons[i := batons[i].(phase := Returning)];
      Take(StartReturn(i));
      DeliverBaton(i);
      batons := batons[i := batons[i].(phase := Deleted)];
      Take(DeleteBaton);
    }
  }

  function Logged(delivered: seq<Delivery>): (log: seq<JobResult>)
    ensures |log| == |delivered|
  {
    seq(|delivered|, i requires 0 <= i < |delivered| => delivered[i].result)
  }

  lemma LoggedAppend(delivered: seq<Delivery>, d: Delivery)
    ensures Logged(delivered + [d]) == Logged(delivered) + [d.result]
  {
  }
}
