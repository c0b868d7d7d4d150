/**
 What it means that a nonce is confirmed, told by any blob that holds the nonce at its place: the
 proof of work is the hash of that blob, and the result carries that hash.
 */
module Confirmation {
  import opened Words
  import opened Jobs
  import opened Rehash

  /** The place of the nonce in the blob of each kind of job. */
  lemma OffsetOfNonce(job: Job)
    ensures job.algorithm.family.KawPow? ==> job.NonceOffset() == 32
    ensures job.algorithm.family.GhostRider? ==> job.NonceOffset() == 76
    ensures !job.algorithm.family.KawPow? && !job.algorithm.family.GhostRider? ==>
              job.NonceOffset() == if job.algorithm.name == "rx/yada" then 147 else 39
  {
  }

  /** The bytes at the place of the nonce are its value, and all others are those of the job. */
  predicate HoldsNonce(blob: Blob, job: Job, nonce: Uint32) {
    var offset := job.NonceOffset();
    && LittleEndian(blob[offset..offset + 4]) == nonce
    && forall k :: 0 <= k < MAX_BLOB_SIZE && (k < offset || offset + 4 <= k) ==> blob[k] == job.blob[k]
  }

  lemma WordOfBytes(bytes: seq<Byte>)
    requires |bytes| == 4
    ensures LittleEndian(bytes) < 0x1_0000_0000 && WordBytes(LittleEndian(bytes)) == bytes
  {
    assert bytes[1..][1..] == bytes[2..] && bytes[2..][1..] == bytes[3..] && bytes[3..][1..] == [];
    var high: nat := bytes[2] as int + 256 * bytes[3] as int;
    var middle: nat := bytes[1] as int + 256 * high;
    assert LittleEndian(bytes[3..]) == bytes[3] && LittleEndian(bytes[2..]) == high;
    assert LittleEndian(bytes) == bytes[0] as int + 256 * middle;
    hide LittleEndian;
    DivUnique(bytes[0] as int + 256 * middle, 256, middle, bytes[0]);
    DivUnique(middle, 256, high, bytes[1]);
    DivUnique(high, 256, bytes[3], bytes[2]);
  }

  lemma WordRoundTrip(word: Uint32)
    ensures LittleEndian(WordBytes(word)) == word
  {
    LittleEndianOfWord(word, []);
    assert WordBytes(word) + [] == WordBytes(word);
  }

  /** Exactly one blob holds a nonce. */
  lemma HoldingIsUnique(blob: Blob, job: Job, nonce: Uint32)
    ensures HoldsNonce(blob, job, nonce) <==> blob == WithNonce(job.blob, job.NonceOffset(), nonce)
  {
    hide LittleEndian, WordBytes, Job.NonceOffset;
    var offset, with := job.NonceOffset(), WithNonce(job.blob, job.NonceOffset(), nonce);
    assert with[offset..offset + 4] == WordBytes(nonce);
    WordRoundTrip(nonce);
    WordOfBytes(blob[offset..offset + 4]);
    if HoldsNonce(blob, job, nonce) {
      assert blob == blob[..offset] + blob[offset..offset + 4] + blob[offset + 4..];
      assert blob[..offset] == job.blob[..offset] && blob[offset + 4..] == job.blob[offset + 4..];
    }
  }

  /** The hashed input is the front of the blob with the nonce in it, so other nonces give other inputs. */
  lemma InputHoldsNonce(job: Job, nonce: Uint32)
    ensures |Input(job, nonce)| == job.size
    ensures forall k :: 0 <= k < job.size && (k < job.NonceOffset() || job.NonceOffset() + 4 <= k) ==>
              Input(job, nonce)[k] == job.blob[k]
    ensures job.NonceOffset() + 4 <= job.size ==>
              LittleEndian(Input(job, nonce)[job.NonceOffset()..job.NonceOffset() + 4]) == nonce
  {
    hide LittleEndian, WordBytes, Job.NonceOffset;
    var offset, with := job.NonceOffset(), WithNonce(job.blob, job.NonceOffset(), nonce);
    HoldingIsUnique(with, job, nonce);
    if offset + 4 <= job.size {
      assert Input(job, nonce)[offset..offset + 4] == with[offset..offset + 4];
    }
  }

  lemma OtherNonceOtherInput(job: Job, a: Uint32, b: Uint32)
    requires a != b && job.NonceOffset() + 4 <= job.size
    ensures Input(job, a) != Input(job, b)
  {
    InputHoldsNonce(job, a);
    InputHoldsNonce(job, b);
    hide LittleEndian, Input, Job.NonceOffset;
  }

  /** The hash that a blob with its nonce in place is held to, and whether it is below the target. */
  lemma ConfirmedByBlob(rig: Rig, job: Job, ready: bool, nonce: Uint32, blob: Blob)
    requires HoldsNonce(blob, job, nonce)
    ensures Confirmed(rig, job, ready, nonce) <==>
              match job.algorithm.family
              case RandomX => ready && LittleEndian(rig.randomx(job.seed, blob[..job.size])[24..32]) < job.target
              case Argon2 => false
              case KawPow =>
                BigEndian(rig.kawpow(job.height, job.blob[..32], LittleEndian(blob[32..40])).0[..8]) < job.target
              case _ =>
                var hash := rig.cryptonight(job.algorithm, rig.hwAES, blob[..job.size], job.height);
                LittleEndian(hash[24..32]) < job.target
  {
    hide LittleEndian, BigEndian, HoldsNonce, WithNonce;
    HoldingIsUnique(blob, job, nonce);
  }

  /** What the result of a confirmed nonce carries. */
  lemma ResultByBlob(rig: Rig, job: Job, nonce: Uint32, blob: Blob)
    requires HoldsNonce(blob, job, nonce)
    ensures var r := ConfirmedResult(rig, job, nonce);
      && r.algorithm == job.algorithm && r.index == job.index && r.clientId == job.clientId
      && r.jobId == job.id && r.backend == job.backend && r.diff == job.diff
      && match job.algorithm.family
         case RandomX => r.nonce == nonce && r.hash == rig.randomx(job.seed, blob[..job.size])
         case KawPow =>
           && r.nonce == LittleEndian(blob[32..40]) && r.headerHash == job.blob[..32]
           && (r.hash, r.mixHash) == rig.kawpow(job.height, r.headerHash, r.nonce)
         case _ => r.nonce == nonce && r.hash == rig.cryptonight(job.algorithm, rig.hwAES, blob[..job.size], job.height)
  {
    hide LittleEndian, HoldsNonce, WithNonce;
    HoldingIsUnique(blob, job, nonce);
  }

  /** The nonce of a KawPow result: the reported one below the high half that the pool has set. */
  lemma FullNonceHalves(job: Job, nonce: Uint32)
    requires job.algorithm.family.KawPow?
    ensures FullNonce(job, nonce) == nonce + 0x1_0000_0000 * LittleEndian(job.blob[36..40])
  {
    hide LittleEndian, WordBytes;
    var with := WithNonce(job.blob, 32, nonce);
    assert with[32..40] == WordBytes(nonce) + job.blob[36..40];
    LittleEndianOfWord(nonce, job.blob[36..40]);
  }

  lemma {:induction false} ConfirmedNonceIsConfirmed(rig: Rig, job: Job, ready: bool, nonces: seq<Uint32>, i: nat)
    requires i < |ConfirmedNonces(rig, job, ready, nonces)|
    ensures Confirmed(rig, job, ready, ConfirmedNonces(rig, job, ready, nonces)[i])
  {
    hide Confirmed;
    var init := nonces[..|nonces| - 1];
    if i < |ConfirmedNonces(rig, job, ready, init)| {
      ConfirmedNonceIsConfirmed(rig, job, ready, init, i);
    }
  }

  /** Every reported result proves its work: its own hash is below the target of the job. */
  lemma AcceptedProvesWork(rig: Rig, bundle: Bundle, ready: bool, i: nat)
    requires i < |Accepted(rig, bundle, ready)|
    ensures var r, job := Accepted(rig, bundle, ready)[i], bundle.job;
      && |r.hash| == 32
      && if job.algorithm.family.KawPow? then BigEndian(r.hash[..8]) < job.target
         else LittleEndian(r.hash[24..32]) < job.target
  {
    hide LittleEndian, BigEndian, ConfirmedNonces, Input, FullNonce;
    var good := ConfirmedNonces(rig, bundle.job, ready, bundle.nonces);
    ConfirmedNonceIsConfirmed(rig, bundle.job, ready, bundle.nonces, i);
  }

  /** The result that reports the end of a job has its routing fields and no difficulty. */
  lemma EndCarriesJob(job: Job)
    ensures var r := EndOf(job);
      && r.algorithm == job.algorithm && r.index == job.index && r.clientId == job.clientId
      && r.jobId == job.id && r.backend == job.backend && r.diff == 0 && r.nonce == 0
  {
  }
}
