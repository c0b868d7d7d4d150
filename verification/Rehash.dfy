/**
 Re-computing the hashes of the nonces that a GPU reported. A bundle holds one job and
 the reported nonces; each nonce is written over the job's blob in place, the blob is
 hashed again, and the nonce becomes a result if the hash is below the job's target and
 a counted compute error otherwise.
 */
module Rehash {
  import opened Words
  import opened Jobs

  /** The hash functions, which are parameters of the model, and the hwAES switch of the CPU. */
  datatype Rig = Rig(
    randomx: (seq<Byte>, seq<Byte>) -> Hash,
    kawpow: (nat, seq<Byte>, nat) -> (Hash, Hash),
    cryptonight: (Algorithm, bool, seq<Byte>, nat) -> Hash,
    hwAES: bool)

  datatype Bundle = Bundle(job: Job, nonces: seq<Uint32>)

  // ---------------------------------------------------------------- specification

  function Input(job: Job, nonce: Uint32): (input: seq<Byte>)
  {
    WithNonce(job.blob, job.NonceOffset(), nonce)[..job.size]
  }

  /** KawPow hashes a 32-byte header with the 64-bit nonce stored behind it. */
  function FullNonce(job: Job, nonce: Uint32): nat
    requires job.algorithm.family.KawPow?
  {
    LittleEndian(WithNonce(job.blob, 32, nonce)[32..40])
  }

  /** The re-computed proof of work as a number: the top 64 bits that are held against the target. */
  function ProofOfWork(rig: Rig, job: Job, nonce: Uint32): nat
  {
    match job.algorithm.family
    case RandomX => LittleEndian(rig.randomx(job.seed, Input(job, nonce))[24..32])
    case KawPow => BigEndian(rig.kawpow(job.height, job.blob[..32], FullNonce(job, nonce)).0[..8])
    case _ => LittleEndian(rig.cryptonight(job.algorithm, rig.hwAES, Input(job, nonce), job.height)[24..32])
  }

  /** Whether the re-hash confirms a nonce; ready says whether the RandomX dataset was available. */
  predicate Confirmed(rig: Rig, job: Job, ready: bool, nonce: Uint32)
  {
    && !job.algorithm.family.Argon2?
    && (job.algorithm.family.RandomX? ==> ready)
    && ProofOfWork(rig, job, nonce) < job.target
  }

  function ConfirmedResult(rig: Rig, job: Job, nonce: Uint32): JobResult
  {
    match job.algorithm.family
    case RandomX => ResultFor(job, nonce, rig.randomx(job.seed, Input(job, nonce)), [], [])
    case KawPow =>
      var (output, mix) := rig.kawpow(job.height, job.blob[..32], FullNonce(job, nonce));
      ResultFor(job, FullNonce(job, nonce), output, job.blob[..32], mix)
    case _ => ResultFor(job, nonce, rig.cryptonight(job.algorithm, rig.hwAES, Input(job, nonce), job.height), [], [])
  }

  function ConfirmedNonces(rig: Rig, job: Job, ready: bool, nonces: seq<Uint32>): seq<Uint32>
  {
    if nonces == [] then []
    else
      var init, last := nonces[..|nonces| - 1], nonces[|nonces| - 1];
      ConfirmedNonces(rig, job, ready, init) + if Confirmed(rig, job, ready, last) then [last] else []
  }

  function Accepted(rig: Rig, bundle: Bundle, ready: bool): (results: seq<JobResult>)
  {
    var good := ConfirmedNonces(rig, bundle.job, ready, bundle.nonces);
    seq(|good|, i requires 0 <= i < |good| => ConfirmedResult(rig, bundle.job, good[i]))
  }

  /** The number of nonces that the re-hash does not confirm. */
  function Unconfirmed(rig: Rig, job: Job, ready: bool, nonces: seq<Uint32>): nat
  {
    if nonces == [] then 0
    else
      var init, last := nonces[..|nonces| - 1], nonces[|nonces| - 1];
      Unconfirmed(rig, job, ready, init) + if Confirmed(rig, job, ready, last) then 0 else 1
  }

  function Rejected(rig: Rig, bundle: Bundle, ready: bool): nat
  {
    Unconfirmed(rig, bundle.job, ready, bundle.nonces)
  }

  /** A re-hashed bundle, with the readiness of the dataset at that moment. */
  datatype Done = Done(bundle: Bundle, ready: bool)

  function AcceptedAll(rig: Rig, done: seq<Done>): seq<JobResult> {
    if done == [] then []
    else
      var last := done[|done| - 1];
      AcceptedAll(rig, done[..|done| - 1]) + Accepted(rig, last.bundle, last.ready)
  }

  function RejectedAll(rig: Rig, done: seq<Done>): nat {
    if done == [] then 0
    else
      var last := done[|done| - 1];
      RejectedAll(rig, done[..|done| - 1]) + Rejected(rig, last.bundle, last.ready)
  }

  function NonceCount(bundles: seq<Bundle>): nat {
    if bundles == [] then 0 else NonceCount(bundles[..|bundles| - 1]) + |bundles[|bundles| - 1].nonces|
  }

  function Bundles(done: seq<Done>): (bundles: seq<Bundle>)
    ensures |bundles| == |done|
  {
    seq(|done|, i requires 0 <= i < |done| => done[i].bundle)
  }

  // ---------------------------------------------------------------- the worker

  class JobBundle {
    const job: Job
    const nonces: seq<Uint32>
    const blob: array<Byte>

    ghost predicate Valid()
      reads this, blob
    {
      && blob.Length == MAX_BLOB_SIZE
      && AgreeOutsideNonce(blob[..], job.blob, job.NonceOffset())
    }

    function Value(): Bundle {
      Bundle(job, nonces)
    }

    constructor (job: Job, nonces: seq<Uint32>)
      ensures Valid() && fresh(blob) && Value() == Bundle(job, nonces)
    {
      this.job := job;
      this.nonces := nonces;
      blob := new Byte[MAX_BLOB_SIZE](i requires 0 <= i < MAX_BLOB_SIZE => job.blob[i]);
      new;
      assert blob[..] == job.blob;
    }

    /** Writes a nonce into the blob in place. */
    method SetNonce(nonce: Uint32)
      requires Valid()
      modifies blob
      ensures Valid() && blob[..] == WithNonce(job.blob, job.NonceOffset(), nonce)
    {
      var offset := job.NonceOffset();
      var bytes := WordBytes(nonce);
      blob[offset] := bytes[0];
      blob[offset + 1] := bytes[1];
      blob[offset + 2] := bytes[2];
      blob[offset + 3] := bytes[3];
      assert blob[..offset] == job.blob[..offset];
      assert blob[offset..offset + 4] == bytes;
      assert blob[offset + 4..] == job.blob[offset + 4..];
      assert blob[..] == blob[..offset] + blob[offset..offset + 4] + blob[offset + 4..];
    }
  }

  class JobBaton {
    const rig: Rig
    var results: seq<JobResult>
    var errors: Uint32

    constructor (rig: Rig)
      ensures this.rig == rig && results == [] && errors == 0
    {
      this.rig := rig;
      results := [];
      errors := 0;
    }

    method CheckHash(job: Job, nonce: Uint32, hash: Hash)
      modifies this
      ensures results == old(results) +
                if LittleEndian(hash[24..32]) < job.target then [ResultFor(job, nonce, hash, [], [])] else []
      ensures errors == (old(errors) + if LittleEndian(hash[24..32]) < job.target then 0 else 1) % 0x1_0000_0000
    {
      if LittleEndian(hash[24..32]) < job.target {
        results := results + [ResultFor(job, nonce, hash, [], [])];
      } else {
        errors := (errors + 1) % 0x1_0000_0000;
      }
    }

    /** One KawPow nonce: the hash is compared after its bytes have been reversed. */
    method CheckKawPow(bundle: JobBundle, nonce: Uint32)
      requires bundle.Valid() && bundle.job.algorithm.family.KawPow?
      requires bundle.blob[..] == WithNonce(bundle.job.blob, 32, nonce)
      modifies this
      ensures var good := Confirmed(rig, bundle.job, false, nonce);
        && results == old(results) + (if good then [ConfirmedResult(rig, bundle.job, nonce)] else [])
        && errors == (old(errors) + if good then 0 else 1) % 0x1_0000_0000
    {
      var headerHash := bundle.blob[..32];
      assert headerHash == bundle.job.blob[..32];
      var fullNonce := LittleEndian(bundle.blob[32..40]);
      var (output, mixHash) := rig.kawpow(bundle.job.height, headerHash, fullNonce);
      var hash := Reverse(output);
      assert hash[24..32] == Reverse(output[..8]);
      LittleEndianOfReverse(output[..8]);
      if LittleEndian(hash[24..32]) < bundle.job.target {
        results := results + [ResultFor(bundle.job, fullNonce, output, headerHash, mixHash)];
      } else {
        errors := (errors + 1) % 0x1_0000_0000;
      }
    }

    /** Writes one nonce, hashes the blob and files the outcome. */
    method CheckNonce(bundle: JobBundle, nonce: Uint32, ready: bool)
      requires bundle.Valid()
      requires !bundle.job.algorithm.family.Argon2? && (bundle.job.algorithm.family.RandomX? ==> ready)
      modifies this, bundle.blob
      ensures bundle.Valid()
      ensures var good := Confirmed(rig, bundle.job, ready, nonce);
        && results == old(results) + (if good then [ConfirmedResult(rig, bundle.job, nonce)] else [])
        && errors == (old(errors) + if good then 0 else 1) % 0x1_0000_0000
    {
      var job := bundle.job;
      bundle.SetNonce(nonce);
      if job.algorithm.family.RandomX? {
        CheckHash(job, nonce, rig.randomx(job.seed, bundle.blob[..job.size]));
      } else if job.algorithm.family.KawPow? {
        CheckKawPow(bundle, nonce);
      } else {
        CheckHash(job, nonce, rig.cryptonight(job.algorithm, rig.hwAES, bundle.blob[..job.size], job.height));
      }
    }

    method GetResults(bundle: JobBundle, ready: bool)
      requires bundle.Valid()
      modifies this, bundle.blob
      ensures bundle.Valid()
      ensures results == old(results) + Accepted(rig, bundle.Value(), ready)
      ensures errors == (old(errors) + Rejected(rig, bundle.Value(), ready)) % 0x1_0000_0000
    {
      var family := bundle.job.algorithm.family;
      if (family.RandomX? && !ready) || family.Argon2? {
        errors := (errors + |bundle.nonces|) % 0x1_0000_0000;
        NothingConfirmed(rig, bundle.job, ready, bundle.nonces);
        return;
      }
      ghost var results0, errors0 := results, errors;
      for k := 0 to |bundle.nonces|
        invariant bundle.Valid()
        invariant Filed(rig, bundle.job, bundle.nonces[..k], ready, results0, errors0, results, errors)
      {
        ghost var before, errorsBefore := results, errors;
        CheckNonce(bundle, bundle.nonces[k], ready);
        FiledStep(rig, bundle.job, bundle.nonces, k, ready, results0, errors0, before, errorsBefore, results, errors);
      }
      assert bundle.nonces[..|bundle.nonces|] == bundle.nonces;
    }

    /** The worker: every bundle of the baton in turn, each with the readiness it meets. */
    method Work(bundles: seq<JobBundle>, ready: seq<bool>)
      requires |ready| == |bundles| && forall i :: 0 <= i < |bundles| ==> bundles[i].Valid()
      requires forall i, j :: 0 <= i < j < |bundles| ==> bundles[i].blob != bundles[j].blob
      modifies this, Blobs(bundles)
      ensures results == old(results) + AcceptedAll(rig, HashedBundles(bundles, ready))
      ensures errors == (old(errors) + RejectedAll(rig, HashedBundles(bundles, ready))) % 0x1_0000_0000
    {
      hide Worked, Accepted, Rejected, AcceptedAll, RejectedAll, JobBundle.Valid;
      ghost var results0, errors0, done := results, errors, HashedBundles(bundles, ready);
      WorkedNothing(rig, done, results, errors);
      for k := 0 to |bundles|
        invariant forall i :: 0 <= i < |bundles| ==> bundles[i].Valid()
        invariant Worked(rig, done[..k], results0, errors0, results, errors)
      {
        ghost var before, errorsBefore := results, errors;
        GetResults(bundles[k], ready[k]);
        WorkedStep(rig, done, k, results0, errors0, before, errorsBefore, results, errors);
      }
      assert done[..|bundles|] == done;
      WorkedOut(rig, done, results0, errors0, results, errors);
    }
  }

  ghost function Blobs(bundles: seq<JobBundle>): set<array<Byte>> {
    set i | 0 <= i < |bundles| :: bundles[i].blob
  }

  function HashedBundles(bundles: seq<JobBundle>, ready: seq<bool>): (done: seq<Done>)
    requires |ready| == |bundles|
    ensures |done| == |bundles|
  {
    seq(|bundles|, i requires 0 <= i < |bundles| => Done(bundles[i].Value(), ready[i]))
  }

  ghost predicate Worked(rig: Rig, done: seq<Done>,
                         results0: seq<JobResult>, errors0: Uint32, results: seq<JobResult>, errors: Uint32)
  {
    && results == results0 + AcceptedAll(rig, done)
    && errors == (errors0 + RejectedAll(rig, done)) % 0x1_0000_0000
  }

  lemma WorkedNothing(rig: Rig, done: seq<Done>, results: seq<JobResult>, errors: Uint32)
    ensures Worked(rig, done[..0], results, errors, results, errors)
  {
    assert results + [] == results;
  }

  lemma WorkedOut(rig: Rig, done: seq<Done>,
                  results0: seq<JobResult>, errors0: Uint32, results: seq<JobResult>, errors: Uint32)
    requires Worked(rig, done, results0, errors0, results, errors)
    ensures results == results0 + AcceptedAll(rig, done)
    ensures errors == (errors0 + RejectedAll(rig, done)) % 0x1_0000_0000
  {
  }

  lemma WorkedStep(rig: Rig, done: seq<Done>, k: nat,
                   results0: seq<JobResult>, errors0: Uint32, before: seq<JobResult>, errorsBefore: Uint32,
                   results: seq<JobResult>, errors: Uint32)
    requires k < |done| && Worked(rig, done[..k], results0, errors0, before, errorsBefore)
    requires results == before + Accepted(rig, done[k].bundle, done[k].ready)
    requires errors == (errorsBefore + Rejected(rig, done[k].bundle, done[k].ready)) % 0x1_0000_0000
    ensures Worked(rig, done[..k + 1], results0, errors0, results, errors)
  {
    assert done[..k + 1][..k] == done[..k];
    var more := Accepted(rig, done[k].bundle, done[k].ready);
    AddModulo(errors0 + RejectedAll(rig, done[..k]), Rejected(rig, done[k].bundle, done[k].ready), 0x1_0000_0000);
    assert results0 + (AcceptedAll(rig, done[..k]) + more) == results0 + AcceptedAll(rig, done[..k]) + more;
  }

  /** The results and the error count after the given nonces, from those before. */
  ghost predicate Filed(rig: Rig, job: Job, nonces: seq<Uint32>, ready: bool,
                        results0: seq<JobResult>, errors0: Uint32, results: seq<JobResult>, errors: Uint32)
  {
    && results == results0 + Accepted(rig, Bundle(job, nonces), ready)
    && errors == (errors0 + Rejected(rig, Bundle(job, nonces), ready)) % 0x1_0000_0000
  }

  lemma FiledStep(rig: Rig, job: Job, nonces: seq<Uint32>, k: nat, ready: bool,
                  results0: seq<JobResult>, errors0: Uint32, before: seq<JobResult>, errorsBefore: Uint32,
                  results: seq<JobResult>, errors: Uint32)
    requires k < |nonces| && Filed(rig, job, nonces[..k], ready, results0, errors0, before, errorsBefore)
    requires var good := Confirmed(rig, job, ready, nonces[k]);
      && results == before + (if good then [ConfirmedResult(rig, job, nonces[k])] else [])
      && errors == (errorsBefore + if good then 0 else 1) % 0x1_0000_0000
    ensures Filed(rig, job, nonces[..k + 1], ready, results0, errors0, results, errors)
  {
    AcceptedStep(rig, job, ready, nonces, k);
    AddModulo(errors0 + Rejected(rig, Bundle(job, nonces[..k]), ready), 1, 0x1_0000_0000);
  }

  // ---------------------------------------------------------------- lemmas

  lemma {:induction false} NothingConfirmed(rig: Rig, job: Job, ready: bool, nonces: seq<Uint32>)
    requires (job.algorithm.family.RandomX? && !ready) || job.algorithm.family.Argon2?
    ensures ConfirmedNonces(rig, job, ready, nonces) == [] && Unconfirmed(rig, job, ready, nonces) == |nonces|
  {
    if nonces != [] {
      NothingConfirmed(rig, job, ready, nonces[..|nonces| - 1]);
    }
  }

  /** One more nonce yields one more result or one more error, at the end of the list. */
  lemma AcceptedStep(rig: Rig, job: Job, ready: bool, nonces: seq<Uint32>, k: nat)
    requires k < |nonces|
    ensures var before, after := Bundle(job, nonces[..k]), Bundle(job, nonces[..k + 1]);
      var good := Confirmed(rig, job, ready, nonces[k]);
      && Accepted(rig, after, ready)
         == Accepted(rig, before, ready) + (if good then [ConfirmedResult(rig, job, nonces[k])] else [])
      && Rejected(rig, after, ready) == Rejected(rig, before, ready) + if good then 0 else 1
  {
    assert nonces[..k + 1][..k] == nonces[..k];
  }

  lemma {:induction false} ConfirmedOrNot(rig: Rig, job: Job, ready: bool, nonces: seq<Uint32>)
    ensures |ConfirmedNonces(rig, job, ready, nonces)| + Unconfirmed(rig, job, ready, nonces) == |nonces|
  {
    if nonces != [] {
      ConfirmedOrNot(rig, job, ready, nonces[..|nonces| - 1]);
    }
  }

  /** Every nonce of a bundle becomes exactly one result or exactly one error. */
  lemma BundleConservation(rig: Rig, bundle: Bundle, ready: bool)
    ensures |Accepted(rig, bundle, ready)| + Rejected(rig, bundle, ready) == |bundle.nonces|
  {
    ConfirmedOrNot(rig, bundle.job, ready, bundle.nonces);
  }

  /** Results carry the low 32 bits of their nonce and the routing index of their job. */
  lemma AcceptedCarriesNonce(rig: Rig, bundle: Bundle, ready: bool, i: nat)
    requires i < |Accepted(rig, bundle, ready)|
    ensures var good := ConfirmedNonces(rig, bundle.job, ready, bundle.nonces);
      && i < |good|
      && Accepted(rig, bundle, ready)[i].nonce % 0x1_0000_0000 == good[i]
      && Accepted(rig, bundle, ready)[i].index == bundle.job.index
  {
    var job := bundle.job;
    var nonce := ConfirmedNonces(rig, job, ready, bundle.nonces)[i];
    if job.algorithm.family.KawPow? {
      var blob := WithNonce(job.blob, 32, nonce);
      assert blob[32..40] == WordBytes(nonce) + job.blob[36..40];
      LittleEndianOfWord(nonce, job.blob[36..40]);
    }
  }

  /** Membership form of the order-preserving filter: confirmed and reported are both needed, and enough. */
  lemma {:induction false} ConfirmedExactly(rig: Rig, job: Job, ready: bool, nonces: seq<Uint32>, nonce: Uint32)
    ensures multiset(ConfirmedNonces(rig, job, ready, nonces))[nonce]
         == if Confirmed(rig, job, ready, nonce) then multiset(nonces)[nonce] else 0
  {
    if nonces != [] {
      var init, last := nonces[..|nonces| - 1], nonces[|nonces| - 1];
      assert nonces == init + [last];
      ConfirmedExactly(rig, job, ready, init, nonce);
    }
  }

  /** Over any list of re-hashed bundles, results and errors together account for every nonce. */
  lemma {:induction false} WorkConservation(rig: Rig, done: seq<Done>)
    ensures |AcceptedAll(rig, done)| + RejectedAll(rig, done) == NonceCount(Bundles(done))
  {
    if done != [] {
      var init, last := done[..|done| - 1], done[|done| - 1];
      assert Bundles(done)[..|done| - 1] == Bundles(init);
      WorkConservation(rig, init);
      BundleConservation(rig, last.bundle, last.ready);
    }
  }
}
