/** The network object: it passes pool jobs to the miner and results to one of two strategies. */
module Network {
  import opened Jobs
  import opened MinerState
  import opened NetworkState
  import M = Miner

  class Network {
    const hasDonate: bool
    const miner: M.Miner
    var userSubmissions: seq<JobResult>
    var donateSubmissions: seq<JobResult>

    constructor (hasDonate: bool, miner: M.Miner)
      ensures this.hasDonate == hasDonate && this.miner == miner
      ensures userSubmissions == [] && donateSubmissions == []
    {
      this.hasDonate := hasDonate;
      this.miner := miner;
      userSubmissions, donateSubmissions := [], [];
    }

    method OnJob(from: Origin, donateActive: bool, job: Job, datasetReady: bool, initReady: bool)
      requires from.Donate? ==> hasDonate
      modifies miner, miner.nonce
      ensures miner.View() ==
                if Ignored(hasDonate, from, donateActive) then old(miner.View())
                else Step(old(miner.View()), SetJob(job, from.Donate?, datasetReady, initReady))
    {
      if hasDonate && donateActive && from != Donate {
        return;
      }
      hide Step;
      miner.AssignJob(job, hasDonate && from == Donate, datasetReady, initReady);
    }

    /** The strategy of the result's index gets it; the other one gets nothing. */
    method OnJobResult(result: JobResult)
      modifies this
      ensures userSubmissions
           == old(userSubmissions) + if Route(hasDonate, result.index).User? then [result] else []
      ensures donateSubmissions
           == old(donateSubmissions) + if Route(hasDonate, result.index).Donate? then [result] else []
    {
      if result.index == 1 && hasDonate {
        donateSubmissions := donateSubmissions + [result];
        return;
      }
      userSubmissions := userSubmissions + [result];
    }
  }
}
