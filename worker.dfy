/** The worker's message handler: scan `nonceRange` consecutive nonces from
    `startNonce` and post exactly one result, the first passing nonce or a
    request for a new range. `parentPort.postMessage` is modelled by
    appending to the sequence `posted` that the handler returns. */
module Worker {
  import opened Bytes
  import opened Difficulty
  import opened HashChain

  /** The fields of a job message. `startNonce` and `nonceRange` are taken to
      be integers; the nonce itself is a `bigint` and never wraps. */
  datatype Job<J> = Job(
    startNonce: int,
    currentHash: seq<Byte>,
    signerBytes: seq<Byte>,
    difficulty: int,
    jobId: J,
    nonceRange: int)

  /** The two results a job can post: `{nonce, isValid: true, jobId}` and
      `{requestNewNonce: true, lastNonce, jobId}`. */
  datatype Message<J> =
    | Found(nonce: int, jobId: J)
    | RequestNewNonce(lastNonce: int, jobId: J)

  /** Every digest the job can ask for is computable without a RangeError. */
  predicate Hashable<J>(job: Job<J>)
  {
    job.nonceRange >= 1 ==> PreimageFits(job.currentHash, job.signerBytes)
  }

  /** Whether `nonce` solves the job's round. */
  ghost predicate Passes<J>(keccak: Keccak, job: Job<J>, nonce: int)
    requires IsKeccak256(keccak) && PreimageFits(job.currentHash, job.signerBytes)
  {
    ValidateHash(HashOf(keccak, job.currentHash, job.signerBytes, nonce), job.difficulty)
  }

  /** The nonces the job is given: `[startNonce, startNonce + max(nonceRange, 0))`. */
  predicate InRange<J>(job: Job<J>, nonce: int)
  {
    job.startNonce <= nonce < job.startNonce + job.nonceRange
  }

  /** `k` consecutive nonces from `start`, in increasing order. */
  function Consecutive(start: int, k: nat): seq<int>
  {
    seq(k, i => start + i)
  }

  /** What a job's one message must say: a find is the first passing nonce
      of the range; a request for a new range comes with
      `lastNonce = startNonce + max(nonceRange, 0)` and only when no nonce of
      the range passes. Both echo the job's id. */
  ghost predicate Reports<J>(keccak: Keccak, job: Job<J>, msg: Message<J>)
    requires IsKeccak256(keccak) && Hashable(job)
  {
    msg.jobId == job.jobId &&
    match msg
    case Found(n, _) =>
      InRange(job, n) && Passes(keccak, job, n) &&
      forall m :: job.startNonce <= m < n ==> !Passes(keccak, job, m)
    case RequestNewNonce(last, _) =>
      last == job.startNonce + Max(job.nonceRange, 0) &&
      forall m :: InRange(job, m) ==> !Passes(keccak, job, m)
  }

  /** The `message` event handler, one job at a time. `tested` lists the
      nonces hashed, in order. */
  method OnMessage<J>(keccak: Keccak, job: Job<J>) returns (posted: seq<Message<J>>, ghost tested: seq<int>)
    requires IsKeccak256(keccak)
    requires Hashable(job)
    ensures |posted| == 1 && Reports(keccak, job, posted[0])
    // nonces are tried in increasing order from startNonce, each once, at most nonceRange of them
    ensures tested == Consecutive(job.startNonce, |tested|)
    ensures |tested| <= Max(job.nonceRange, 0)
    // the search stops at a find, and otherwise hashes the whole range
    ensures posted[0].Found? ==> |tested| == posted[0].nonce - job.startNonce + 1
    ensures posted[0].RequestNewNonce? ==> |tested| == Max(job.nonceRange, 0)
  {
    posted, tested := [], [];
    var nonce := job.startNonce;
    var nonceCount := 0;
    while nonceCount < job.nonceRange
      invariant 0 <= nonceCount <= Max(job.nonceRange, 0)
      invariant nonce == job.startNonce + nonceCount
      invariant tested == Consecutive(job.startNonce, nonceCount)
      invariant PreimageFits(job.currentHash, job.signerBytes) || nonceCount == 0
      invariant forall m :: job.startNonce <= m < nonce ==> !Passes(keccak, job, m)
      decreases job.nonceRange - nonceCount
    {
      nonceCount := nonceCount + 1;
      var hash := CreateHash(keccak, job.currentHash, job.signerBytes, nonce);
      tested := tested + [nonce];
      var isValid := ValidateHash(hash[..], job.difficulty);
      if isValid {
        posted := posted + [Found(nonce, job.jobId)];
        return;
      }
      nonce := nonce + 1;
    }
    posted := posted + [RequestNewNonce(nonce, job.jobId)];
  }

  /** A job has one correct report: the contract of the handler pins its
      message down completely. */
  lemma ReportUnique<J>(keccak: Keccak, job: Job<J>, a: Message<J>, b: Message<J>)
    requires IsKeccak256(keccak) && Hashable(job)
    requires Reports(keccak, job, a) && Reports(keccak, job, b)
    ensures a == b
  {
    assert a.Found? ==> InRange(job, a.nonce) && Passes(keccak, job, a.nonce);
    assert b.Found? ==> InRange(job, b.nonce) && Passes(keccak, job, b.nonce);
  }

  /** A job reports a find exactly when some nonce of its range passes. */
  lemma ReportFoundIff<J>(keccak: Keccak, job: Job<J>, msg: Message<J>)
    requires IsKeccak256(keccak) && Hashable(job)
    requires Reports(keccak, job, msg)
    ensures msg.Found? <==> exists m :: InRange(job, m) && Passes(keccak, job, m)
  {
    if msg.Found? {
      assert InRange(job, msg.nonce) && Passes(keccak, job, msg.nonce);
    }
  }

  /** No nonce is given to two of the jobs. */
  ghost predicate DisjointRanges<J>(jobs: seq<Job<J>>)
  {
    forall i, j, m :: 0 <= i < j < |jobs| && InRange(jobs[i], m) ==> !InRange(jobs[j], m)
  }

  /** Workers given disjoint ranges, whose union holds exactly
      one solution `x`, report exactly one find between them, and it is
      `x`; every other worker asks for a new range. */
  lemma SingleSolutionFoundOnce<J>(keccak: Keccak, jobs: seq<Job<J>>, msgs: seq<Message<J>>, x: int)
    requires IsKeccak256(keccak)
    requires |msgs| == |jobs| && DisjointRanges(jobs)
    requires forall i :: 0 <= i < |jobs| ==> PreimageFits(jobs[i].currentHash, jobs[i].signerBytes)
    requires forall i :: 0 <= i < |jobs| ==> Reports(keccak, jobs[i], msgs[i])
    requires forall i, m :: 0 <= i < |jobs| && InRange(jobs[i], m) ==> (Passes(keccak, jobs[i], m) <==> m == x)
    requires exists i :: 0 <= i < |jobs| && InRange(jobs[i], x)
    ensures exists i :: (0 <= i < |jobs| && msgs[i] == Found(x, jobs[i].jobId) &&
                         forall j :: 0 <= j < |jobs| && j != i ==> msgs[j].RequestNewNonce?)
  {
    var i :| 0 <= i < |jobs| && InRange(jobs[i], x);
    ReportFoundIff(keccak, jobs[i], msgs[i]);
    assert msgs[i] == Found(x, jobs[i].jobId);
    forall j | 0 <= j < |jobs| && j != i
      ensures msgs[j].RequestNewNonce?
    {
      assert !InRange(jobs[j], x) by {
        assert i < j ==> !InRange(jobs[j], x);
        assert j < i ==> !InRange(jobs[j], x);
      }
    }
  }
}
