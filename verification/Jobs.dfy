/** Mining jobs and the results computed for them. */
module Jobs {
  import opened Words

  datatype Family = RandomX | Argon2 | KawPow | GhostRider | CryptoNight | OtherFamily

  datatype Algorithm = Algorithm(name: string, family: Family)

  const RX_YADA: string := "rx/yada"
  const MAX_BLOB_SIZE: nat := 408

  /** 0 for jobs of the user's pool, 1 for donation jobs; it selects the nonce counter. */
  type JobIndex = n: nat | n < 2
  type Uint32 = n: int | 0 <= n < 0x1_0000_0000
  type Hash = h: seq<Byte> | |h| == 32 witness seq(32, _ => 0)
  type BlobSize = n: nat | n <= MAX_BLOB_SIZE
  type Blob = b: seq<Byte> | |b| == MAX_BLOB_SIZE witness seq(MAX_BLOB_SIZE, _ => 0)

  /** The part of a pool job that the miner, the network layer and the verifier look at. */
  datatype Job = Job(
    algorithm: Algorithm, id: string, clientId: string, seed: seq<Byte>, blob: Blob, size: BlobSize,
    target: nat, diff: nat, height: nat, backend: nat, index: JobIndex)
  {
    function NonceOffset(): (offset: nat)
      ensures offset + 8 <= MAX_BLOB_SIZE
    {
      match algorithm.family
      case KawPow => 32
      case GhostRider => 76
      case _ => if algorithm.name == RX_YADA then 147 else 39
    }

    predicate IsEqualBlob(other: Job) {
      size == other.size && blob[..size] == other.blob[..size]
    }
  }

  datatype JobResult = JobResult(
    algorithm: Algorithm, index: JobIndex, clientId: string, jobId: string, backend: nat,
    nonce: nat, diff: nat, hash: seq<Byte>, headerHash: seq<Byte>, mixHash: seq<Byte>)

  /** A result carries the routing fields of the job it was computed for. */
  function ResultFor(job: Job, nonce: nat, hash: seq<Byte>, headerHash: seq<Byte>, mixHash: seq<Byte>): JobResult {
    JobResult(job.algorithm, job.index, job.clientId, job.id, job.backend, nonce, job.diff, hash, headerHash, mixHash)
  }

  function Zeros(n: nat): seq<Byte> {
    seq(n, _ => 0)
  }

  /** The result that reports the end of a job's nonces: without a nonce or a hash, of difficulty 0. */
  function EndOf(job: Job): JobResult {
    ResultFor(job, 0, Zeros(32), Zeros(32), Zeros(32)).(diff := 0)
  }

  /** Storing a 32-bit nonce at its place in the blob. */
  function WithNonce(blob: Blob, offset: nat, nonce: Uint32): (b: Blob)
    requires offset + 8 <= MAX_BLOB_SIZE
  {
    blob[..offset] + WordBytes(nonce) + blob[offset + 4..]
  }

  predicate AgreeOutsideNonce(a: Blob, b: Blob, offset: nat)
    requires offset + 8 <= MAX_BLOB_SIZE
  {
    a[..offset] == b[..offset] && a[offset + 4..] == b[offset + 4..]
  }
}
