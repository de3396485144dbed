/**
 The chunked scan of doca/regex_scan/regex_scan_sample.c: a buffer is cut into jobs that go
 through an asynchronous work queue with a pool of one buffer object. Integer widths are explicit:
 the byte counter has 32 unsigned bits and the read offset 32 signed ones.
 */
module ScanQueue {
  import opened Arith

  const NB_CHUNKS := 6
  const TWO31 := 0x8000_0000
  const TWO32 := 0x1_0000_0000

  function ToU32(x: nat): (u: nat)
    ensures u <= x && u < TWO32
  {
    x % TWO32
  }

  function ToInt32(x: nat): int {
    var u := x % TWO32;
    if u < TWO31 then u else u - TWO32
  }

  function Min(a: nat, b: nat): (m: nat)
    ensures m <= a && m <= b
  {
    if a < b then a else b
  }

  // ----- the specification: which jobs a buffer of a given length is cut into -----

  /** `index` is the job's user data, `slot` the result object it writes to. */
  datatype Job = Job(index: nat, offset: int, size: nat, slot: nat)

  function ChunkLen(len: nat): (c: nat)
    ensures len > 0 ==> c > 0
  {
    if len < NB_CHUNKS then len else 1 + len / NB_CHUNKS
  }

  /** Six chunks go past the end of the buffer, and with one byte less each they would not; a buffer
      of fewer than six bytes is a single chunk. */
  lemma {:induction false} ChunkIsSixth(len: nat)
    ensures len < 6 ==> ChunkLen(len) == len
    ensures len >= 6 ==> 6 * (ChunkLen(len) - 1) <= len < 6 * ChunkLen(len)
  {
  }

  function JobCount(len: nat): nat {
    if len == 0 then 0 else CeilDiv(ToU32(len), ChunkLen(len))
  }

  function JobAt(len: nat, j: nat): Job
    requires j * ChunkLen(len) <= ToU32(len)
  {
    Job(j, ToInt32(j * ChunkLen(len)), Min(ChunkLen(len), ToU32(len) - j * ChunkLen(len)), 0)
  }

  lemma RoundedUp(r: nat, c: nat, j: nat)
    requires c > 0
    ensures j < CeilDiv(r, c) <==> j * c < r
  {
    var q := CeilDiv(r, c);
    assert q * c <= r + c - 1 < q * c + c;
    assert (j + 1) * c == j * c + c;
    MulMonotone(j + 1, q, c);
    MulMonotone(q, j, c);
  }

  /** Job j exists exactly when bytes remain at its start. */
  lemma JobsInRange(len: nat, j: nat)
    requires len > 0
    ensures ChunkLen(len) > 0
    ensures j < JobCount(len) <==> j * ChunkLen(len) < ToU32(len)
  {
    hide ChunkLen, ToU32;
    RoundedUp(ToU32(len), ChunkLen(len), j);
  }

  function Jobs(len: nat): (jobs: seq<Job>)
    requires len > 0
    ensures |jobs| == JobCount(len)
  {
    seq(JobCount(len), j requires 0 <= j < JobCount(len) => (JobsInRange(len, j); JobAt(len, j)))
  }

  function SizeSum(jobs: seq<Job>): nat {
    if jobs == [] then 0 else SizeSum(jobs[..|jobs| - 1]) + jobs[|jobs| - 1].size
  }

  /** Each job starts where the jobs before it end, and together they cover `len` bytes. */
  ghost predicate Tiles(jobs: seq<Job>, len: nat) {
    (forall j :: 0 <= j < |jobs| ==> jobs[j].offset == SizeSum(jobs[..j])) && SizeSum(jobs) == len
  }

  lemma MulStep(n: nat, c: nat)
    ensures (n + 1) * c == n * c + c
  {
  }

  lemma {:induction false} SizeOfPrefix(len: nat, n: nat)
    requires len > 0 && n <= JobCount(len)
    ensures SizeSum(Jobs(len)[..n]) == Min(n * ChunkLen(len), ToU32(len))
  {
    hide ChunkLen, ToU32, ToInt32, JobCount;
    var jobs := Jobs(len);
    if n == 0 {
      assert 0 * ChunkLen(len) == 0;
    } else {
      SizeOfPrefix(len, n - 1);
      JobsInRange(len, n - 1);
      MulStep(n - 1, ChunkLen(len));
      assert jobs[..n][..n - 1] == jobs[..n - 1];
      assert jobs[..n][n - 1] == JobAt(len, n - 1);
    }
  }

  /** The length fits the byte counter and the last read offset fits a signed int. */
  predicate Fits(len: nat)
    requires len > 0
  {
    len < TWO32 && (len - 1) / ChunkLen(len) * ChunkLen(len) < TWO31
  }

  lemma JobFacts(len: nat, j: nat)
    requires len > 0 && j < JobCount(len)
    ensures var c, jobs := ChunkLen(len), Jobs(len);
            && SizeSum(jobs[..j]) == j * c < ToU32(len)
            && jobs[j].index == j && jobs[j].offset == ToInt32(j * c)
            && j * c <= (ToU32(len) - 1) / c * c
  {
    hide CeilDiv, ChunkLen, ToU32, ToInt32;
    JobsInRange(len, j);
    SizeOfPrefix(len, j);
    CeilDivStep(ToU32(len), ChunkLen(len));
    MulMonotone(j, (ToU32(len) - 1) / ChunkLen(len), ChunkLen(len));
  }

  lemma SizeOfAll(len: nat)
    requires len > 0
    ensures SizeSum(Jobs(len)) == ToU32(len)
  {
    hide ChunkLen, ToU32, JobCount;
    SizeOfPrefix(len, JobCount(len));
    JobsInRange(len, JobCount(len));
    assert Jobs(len)[..JobCount(len)] == Jobs(len);
  }

  lemma FittingTiles(len: nat)
    requires len > 0 && Fits(len)
    ensures Tiles(Jobs(len), len)
    ensures forall j :: 0 <= j < JobCount(len) ==> Jobs(len)[j].offset == ChunkLen(len) * Jobs(len)[j].index
  {
    SizeOfAll(len);
    assert ToU32(len) == len;
    var jobs := Jobs(len);
    hide Jobs, ToU32, JobCount, ChunkLen;
    forall j | 0 <= j < JobCount(len)
      ensures jobs[j].offset == SizeSum(jobs[..j]) == ChunkLen(len) * jobs[j].index
    {
      JobFacts(len, j);
      SmallIsKept(j * ChunkLen(len));
    }
  }

  lemma SmallIsKept(x: nat)
    ensures x < TWO32 ==> (ToInt32(x) == x <==> x < TWO31)
  {
  }

  lemma TilingFits(len: nat)
    requires len > 0 && Tiles(Jobs(len), len)
    ensures Fits(len)
  {
    SizeOfAll(len);
    assert len == ToU32(len) < TWO32;
    hide CeilDiv, ChunkLen, ToU32, ToInt32, Jobs;
    var c := ChunkLen(len);
    var last := (len - 1) / c;
    CeilDivStep(len, c);
    JobFacts(len, last);
    SmallIsKept(last * c);
  }

  /** At most six jobs; they tile the buffer if and only if its length fits; and then a match at
      some place of a chunk is reported at chunk length times job index plus that place, which is
      its place in the whole buffer. */
  lemma JobsTileBuffer(len: nat)
    requires len > 0
    ensures JobCount(len) <= NB_CHUNKS
    ensures Tiles(Jobs(len), len) <==> Fits(len)
    ensures Fits(len) ==>
              forall j :: 0 <= j < JobCount(len) ==> Jobs(len)[j].offset == ChunkLen(len) * Jobs(len)[j].index
  {
    hide Jobs, JobCount, ChunkLen, Fits, Tiles;
    AtMostSix(len);
    if Fits(len) {
      FittingTiles(len);
    }
    if Tiles(Jobs(len), len) {
      TilingFits(len);
    }
  }

  /** A buffer of 2^32 bytes makes the byte counter zero: no job is planned, and a scan that submits
      none succeeds. */
  lemma NothingScanned()
    ensures !Fits(TWO32) && JobCount(TWO32) == 0 && Jobs(TWO32) == [] && !Tiles(Jobs(TWO32), TWO32)
  {
    assert ToU32(TWO32) == 0;
    assert ChunkLen(TWO32) == 715827883;
  }

  /** One byte more and a single job reads a single byte. */
  lemma OneByteScanned()
    ensures JobCount(TWO32 + 1) == 1 && SizeSum(Jobs(TWO32 + 1)) == 1
  {
    var len := TWO32 + 1;
    assert ToU32(len) == 1;
    SizeOfAll(len);
    JobsInRange(len, 0);
    JobsInRange(len, 1);
  }

  lemma AtMostSix(len: nat)
    requires len > 0
    ensures JobCount(len) <= NB_CHUNKS
  {
    JobsInRange(len, NB_CHUNKS);
    if len < NB_CHUNKS {
      assert ChunkLen(len) * NB_CHUNKS >= len;
    }
  }

  // ----- the work queue -----

  datatype SubmitResult = Submitted | NoMemory | SubmitFailed

  /** What an answer adds to the number of jobs in the queue, a failure being negative. */
  function Enqueued(answer: SubmitResult): (ret: int)
    ensures ret == 1 <==> answer.Submitted?
    ensures ret < 0 <==> answer.SubmitFailed?
  {
    match answer
    case Submitted => 1
    case NoMemory => 0
    case SubmitFailed => -1
  }

  datatype Retrieved = Event(job: Job) | Again | RetrieveFailed

  /** Buffer inventory of one element and work queue. Every answer is an arbitrary choice, except that
      an `eager` queue always finds a buffer, accepts the job and has completed what is in flight. A job
      may only be submitted with a buffer that its caller holds, and when no job in flight writes to the
      same result slot; only a held buffer can be given back. `asked`, `tries` and `polls` count the
      calls, `granted`, `answer` and `last` are their latest answers, and `failed` says that a
      submission or a retrieval ever failed outright. */
  class WorkQueue {
    const eager: bool
    var free: set<nat>
    ghost var held: set<nat>
    var inflight: seq<Job>
    var buffers: seq<nat>
    ghost var submitted: seq<Job>
    ghost var retrieved: seq<Job>
    ghost var asked: nat
    ghost var granted: bool
    ghost var tries: nat
    ghost var answer: SubmitResult
    ghost var polls: nat
    ghost var last: Retrieved
    ghost var failed: bool

    constructor (eager: bool)
      ensures this.eager == eager
      ensures free == {0} && held == {} && inflight == [] && buffers == [] && submitted == [] && retrieved == []
      ensures !failed
    {
      this.eager := eager;
      free, held, inflight, buffers, submitted, retrieved := {0}, {}, [], [], [], [];
      asked, tries, polls, granted, answer, last, failed := 0, 0, 0, false, Submitted, Again, false;
    }

    method BufByAddr() returns (ok: bool, buf: nat)
      requires free != {}
      modifies this`free, this`held, this`asked, this`granted
      ensures asked == old(asked) + 1 && granted == ok && (eager ==> ok)
      ensures ok ==> buf in old(free) && free == old(free) - {buf} && held == old(held) + {buf}
      ensures !ok ==> free == old(free) && held == old(held)
    {
      ok :| eager ==> ok;
      buf :| buf in free;
      asked, granted := asked + 1, ok;
      if ok {
        free, held := free - {buf}, held + {buf};
      }
    }

    method RefcountRm(buf: nat)
      requires buf in held
      modifies this`free, this`held
      ensures free == old(free) + {buf} && held == old(held) - {buf}
    {
      free, held := free + {buf}, held - {buf};
    }

    method Submit(job: Job, buf: nat) returns (r: SubmitResult)
      requires buf in held
      requires forall j :: 0 <= j < |inflight| ==> inflight[j].slot != job.slot
      modifies this`inflight, this`buffers, this`held, this`submitted, this`tries, this`answer, this`failed
      ensures tries == old(tries) + 1 && answer == r && (eager ==> r.Submitted?)
      ensures failed == (old(failed) || r.SubmitFailed?)
      ensures r.Submitted? ==> inflight == old(inflight) + [job] && submitted == old(submitted) + [job]
      ensures r.Submitted? ==> buffers == old(buffers) + [buf] && held == old(held) - {buf}
      ensures !r.Submitted? ==> inflight == old(inflight) && submitted == old(submitted)
      ensures !r.Submitted? ==> buffers == old(buffers) && held == old(held)
    {
      r :| eager ==> r == Submitted;
      tries, answer, failed := tries + 1, r, failed || r.SubmitFailed?;
      if r.Submitted? {
        inflight, submitted := inflight + [job], submitted + [job];
        buffers, held := buffers + [buf], held - {buf};
      }
    }

    /** A completed job's buffer is held by the caller again, but the event does not name it. */
    method Retrieve() returns (r: Retrieved)
      requires |buffers| == |inflight|
      modifies this`inflight, this`buffers, this`held, this`retrieved, this`polls, this`last, this`failed
      ensures polls == old(polls) + 1 && last == r && failed == (old(failed) || r.RetrieveFailed?)
      ensures eager ==> if old(inflight) == [] then r.Again? else r.Event?
      ensures r.Event? ==>
                exists k :: 0 <= k < |old(inflight)| &&
                  r.job == old(inflight)[k] && inflight == old(inflight)[..k] + old(inflight)[k + 1..] &&
                  buffers == old(buffers)[..k] + old(buffers)[k + 1..] && held == old(held) + {old(buffers)[k]}
      ensures r.Event? ==> retrieved == old(retrieved) + [r.job]
      ensures !r.Event? ==> inflight == old(inflight) && retrieved == old(retrieved)
      ensures !r.Event? ==> buffers == old(buffers) && held == old(held)
    {
      r :| r in {Again, RetrieveFailed} && (eager ==> r == Again);
      var ready: bool :| eager ==> ready;
      if ready && |inflight| > 0 {
        var k :| 0 <= k < |inflight|;
        r := Event(inflight[k]);
        held := held + {buffers[k]};
        inflight, retrieved := inflight[..k] + inflight[k + 1..], retrieved + [r.job];
        buffers := buffers[..k] + buffers[k + 1..];
      }
      polls, last, failed := polls + 1, r, failed || r.RetrieveFailed?;
    }
  }

  // ----- the scan -----

  datatype Status = Running | Success | IoFailed | InvalidValue

  /** The submitted jobs are the first ones of the plan, and the variables describe the next. */
  ghost predicate OnPlan(len: nat, submitted: seq<Job>, userData: nat, remaining: nat) {
    var n := |submitted|;
    && len > 0 && n <= JobCount(len) && submitted == Jobs(len)[..n]
    && userData == n
    && remaining == ToU32(len) - Min(n * ChunkLen(len), ToU32(len))
  }

  lemma PlanStarts(len: nat)
    requires len > 0
    ensures OnPlan(len, [], 0, ToU32(len))
  {
    assert Jobs(len)[..0] == [];
  }

  /** The next job of the plan is the one that the remaining bytes describe. */
  lemma PlanAdvances(len: nat, submitted: seq<Job>, userData: nat, remaining: nat)
    requires OnPlan(len, submitted, userData, remaining) && remaining > 0
    ensures remaining <= len
    ensures var size := Min(ChunkLen(len), remaining);
            OnPlan(len, submitted + [Job(userData, ToInt32(len - remaining), size, 0)], userData + 1, remaining - size)
  {
    var c, n := ChunkLen(len), |submitted|;
    JobsInRange(len, n);
    assert (n + 1) * c == n * c + c;
    Wraps(len, n * c);
    hide ChunkLen, JobCount, ToInt32, ToU32;
    assert Jobs(len)[n] == Job(n, ToInt32(len - remaining), Min(c, remaining), 0);
    assert Jobs(len)[..n + 1] == Jobs(len)[..n] + [Jobs(len)[n]];
  }

  lemma PlanEnds(len: nat, submitted: seq<Job>, userData: nat)
    requires OnPlan(len, submitted, userData, 0)
    ensures submitted == Jobs(len)
  {
    JobsInRange(len, |submitted|);
    assert Jobs(len)[..JobCount(len)] == Jobs(len);
  }

  /** Bytes remain exactly as long as jobs of the plan do. */
  lemma PlanLeft(len: nat, submitted: seq<Job>, userData: nat, remaining: nat)
    requires OnPlan(len, submitted, userData, remaining)
    ensures remaining > 0 <==> |submitted| < JobCount(len)
  {
    JobsInRange(len, |submitted|);
  }

  /** What the narrow byte counter loses, the narrow offset loses too. */
  lemma Wraps(len: nat, start: nat)
    requires start < ToU32(len)
    ensures ToInt32(len - (ToU32(len) - start)) == ToInt32(start)
  {
    assert len - (ToU32(len) - start) == start + len / TWO32 * TWO32;
    assert (start + len / TWO32 * TWO32) % TWO32 == start % TWO32;
  }

  /** At most one job is in flight, with the buffer `buf`, and then the pool is empty. */
  ghost predicate Pooled(free: set<nat>, held: set<nat>, inflight: seq<Job>, buffers: seq<nat>, buf: nat) {
    && held == {}
    && if free == {} then |inflight| == 1 && buffers == [buf] == [0] else free == {0} && inflight == [] && buffers == []
  }

  lemma PooledFree(free: set<nat>, held: set<nat>, inflight: seq<Job>, buffers: seq<nat>, buf: nat)
    requires Pooled(free, held, inflight, buffers, buf)
    ensures held == {} && |free| == 1 - |inflight|
    ensures |free| != 0 ==> free == {0} && inflight == [] && buffers == []
  {
  }

  /** A buffer taken from the pool is given back or goes with a job. */
  lemma PooledMoves(job: Job, before: nat)
    ensures Pooled({0}, {}, [], [], before)
    ensures {0} - {0} == {} && {} + {0} == {0} && [] + [job] == [job] && [] + [0] == [0]
    ensures Pooled({}, {}, [job], [0], 0)
  {
  }

  /** Every submitted job is in flight or was retrieved, once. */
  ghost predicate Settled(submitted: seq<Job>, inflight: seq<Job>, retrieved: seq<Job>) {
    multiset(submitted) == multiset(inflight) + multiset(retrieved)
  }

  lemma SettledMoves(submitted: seq<Job>, retrieved: seq<Job>, job: Job)
    ensures Settled(submitted, [], retrieved) ==> Settled(submitted + [job], [job], retrieved)
    ensures Settled(submitted, [job], retrieved) ==> Settled(submitted, [], retrieved + [job])
  {
  }

  lemma SettledCounts(submitted: seq<Job>, inflight: seq<Job>, retrieved: seq<Job>)
    requires Settled(submitted, inflight, retrieved)
    ensures |submitted| == |inflight| + |retrieved|
    ensures inflight == [] ==> multiset(submitted) == multiset(retrieved)
  {
    assert |multiset(submitted)| == |inflight| + |retrieved|;
  }

  /** The offsets added to the matches of the retrieved jobs. */
  ghost predicate Reported(chunkLen: nat, retrieved: seq<Job>, reports: seq<nat>) {
    |reports| == |retrieved| && forall k :: 0 <= k < |reports| ==> reports[k] == chunkLen * retrieved[k].index
  }

  lemma ReportedMore(chunkLen: nat, retrieved: seq<Job>, reports: seq<nat>, job: Job)
    requires Reported(chunkLen, retrieved, reports)
    ensures Reported(chunkLen, retrieved + [job], reports + [chunkLen * job.index])
  {
  }

  /** The variables of `regex_scan`; `reports` lists the offsets added to the matches of a chunk. */
  class RegexScan {
    const dataLen: nat
    const chunkLen: nat
    const workq: WorkQueue
    var remaining: nat
    var userData: nat
    var buf: nat
    var enqueued: nat
    var dequeued: nat
    var reports: seq<nat>

    /** Whatever the device did so far, the submitted jobs are the first ones of the plan, at most
        one of them is in flight, the buffer pool is empty exactly then, the field `buf` names that
        job's buffer, and the counters agree. */
    ghost predicate Valid()
      reads this, workq
    {
      && chunkLen == ChunkLen(dataLen)
      && OnPlan(dataLen, workq.submitted, userData, remaining)
      && Pooled(workq.free, workq.held, workq.inflight, workq.buffers, buf)
      && Settled(workq.submitted, workq.inflight, workq.retrieved)
      && Reported(chunkLen, workq.retrieved, reports)
    }

    /** The counters of the main loop. */
    ghost predicate Counted()
      reads this, workq
    {
      enqueued == |workq.submitted| && dequeued == |workq.retrieved|
    }

    constructor (len: nat, eager: bool)
      requires len > 0
      ensures Valid() && Counted() && dataLen == len
      ensures workq.submitted == [] && workq.inflight == [] && workq.eager == eager && !workq.failed
      ensures fresh(workq)
    {
      dataLen, chunkLen := len, ChunkLen(len);
      workq := new WorkQueue(eager);
      remaining, userData, buf, enqueued, dequeued, reports := ToU32(len), 0, 0, 0, 0, [];
      new;
      PlanStarts(len);
    }

    /** `regex_scan_enq_job`: a buffer is asked for exactly when bytes remain and the pool is not empty,
        a job is submitted exactly when one was given, and the result tells what the queue answered. */
    method EnqJob() returns (ret: int)
      requires Valid()
      modifies this`remaining, this`userData, this`buf, workq
      ensures ret >= 0 ==> Valid()
      ensures ret >= 0 ==> |workq.submitted| == |old(workq.submitted)| + ret
      ensures workq.asked == old(workq.asked) + if old(remaining) > 0 && old(workq.inflight) == [] then 1 else 0
      ensures workq.tries == old(workq.tries) + if workq.asked > old(workq.asked) && workq.granted then 1 else 0
      ensures ret == if workq.tries == old(workq.tries) then 0 else Enqueued(workq.answer)
      ensures workq.failed == (old(workq.failed) || ret < 0)
      ensures workq.eager ==> ret == if old(remaining) > 0 && old(workq.inflight) == [] then 1 else 0
      ensures workq.retrieved == old(workq.retrieved) && workq.polls == old(workq.polls)
    {
      hide OnPlan, ToInt32, Min, ChunkLen, Settled, Reported, Pooled;
      ret := 0;
      PooledFree(workq.free, workq.held, workq.inflight, workq.buffers, buf);
      var nbFree := |workq.free|;
      if remaining != 0 && nbFree != 0 {
        var jobSize := Min(chunkLen, remaining);
        PlanAdvances(dataLen, workq.submitted, userData, remaining);
        var readOffset := ToInt32(dataLen - remaining);
        var ok, found := workq.BufByAddr();
        if !ok {
          return;
        }
        buf := found;
        var job := Job(userData, readOffset, jobSize, 0 + ret);
        SettledMoves(workq.submitted, workq.retrieved, job);
        PooledMoves(job, buf);
        var result := workq.Submit(job, buf);
        if result.NoMemory? {
          workq.RefcountRm(buf);
          return;
        }
        if result.SubmitFailed? {
          return -1;
        }
        remaining := remaining - jobSize;
        ret := ret + 1;
        userData := userData + 1;
      }
    }

    /** Retrieves one event, if there is one. The buffer that is given back is the job's own. */
    method RetrieveOne() returns (result: Retrieved)
      requires Valid()
      modifies this`reports, workq
      ensures !result.RetrieveFailed? ==> Valid()
      ensures workq.submitted == old(workq.submitted)
      ensures result.Event? ==>
                |workq.inflight| < |old(workq.inflight)| && |workq.retrieved| == |old(workq.retrieved)| + 1
      ensures !result.Event? ==> workq.retrieved == old(workq.retrieved) && workq.inflight == old(workq.inflight)
      ensures workq.polls == old(workq.polls) + 1 && workq.last == result
      ensures workq.failed == (old(workq.failed) || result.RetrieveFailed?)
      ensures workq.eager ==> if old(workq.inflight) == [] then result.Again? else result.Event?
    {
      hide OnPlan, ChunkLen, Settled, Reported;
      ghost var inflight, buffers, retrieved := workq.inflight, workq.buffers, workq.retrieved;
      result := workq.Retrieve();
      match result
      case Event(job) =>
        assert inflight == [job] && buffers == [buf] && workq.inflight == [] && workq.buffers == [];
        SettledMoves(workq.submitted, retrieved, job);
        ReportedMore(chunkLen, retrieved, reports, job);
        workq.RefcountRm(buf);
        reports := reports + [chunkLen * job.index];
      case Again =>
      case RetrieveFailed =>
    }

    /** `regex_scan_deq_job`: retrieve until the queue has nothing more or fails; one retrieval more
        than there were events. */
    method DeqJob() returns (ret: int)
      requires Valid()
      modifies this`reports, workq
      ensures ret >= 0 ==> Valid()
      ensures |workq.retrieved| == |old(workq.retrieved)| + workq.polls - old(workq.polls) - 1
      ensures ret >= 0 ==> |workq.retrieved| == |old(workq.retrieved)| + ret && workq.last.Again?
      ensures ret < 0 ==> ret == -1 && workq.last.RetrieveFailed?
      ensures workq.failed == (old(workq.failed) || ret < 0)
      ensures workq.eager ==> ret >= 0 && workq.inflight == []
      ensures workq.submitted == old(workq.submitted)
    {
      hide Valid;
      ret := 0;
      var result := Again;
      while true
        invariant Valid() && ret >= 0 && |workq.retrieved| == |old(workq.retrieved)| + ret
        invariant workq.polls == old(workq.polls) + ret && workq.failed == old(workq.failed)
        invariant workq.submitted == old(workq.submitted)
        decreases |workq.inflight|
      {
        result := RetrieveOne();
        match result
        case Event(_) =>
          ret := ret + 1;
        case Again =>
          return;
        case RetrieveFailed =>
          return -1;
      }
    }

    /** One pass of the main loop and its exit test. */
    method Pass() returns (status: Status)
      requires Valid() && Counted() && !workq.failed
      modifies this, workq
      ensures status != InvalidValue
      ensures status == IoFailed <==> workq.failed
      ensures status == Running || status == Success ==> Valid() && Counted()
      ensures status == Success ==>
                && workq.submitted == Jobs(dataLen) && workq.inflight == []
                && multiset(workq.retrieved) == multiset(Jobs(dataLen))
      ensures status == Running ==> |workq.retrieved| < JobCount(dataLen)
      ensures workq.eager && old(workq.inflight) == [] ==>
                && !workq.failed && workq.inflight == [] && |workq.retrieved| == |workq.submitted|
                && |workq.submitted| == |old(workq.submitted)|
                                        + if |old(workq.submitted)| < JobCount(dataLen) then 1 else 0
    {
      PlanLeft(dataLen, workq.submitted, userData, remaining);
      hide OnPlan, Valid, JobCount;
      var ret := EnqJob();
      if ret < 0 {
        return IoFailed;
      }
      enqueued := enqueued + ret;
      ret := DeqJob();
      if ret < 0 {
        return IoFailed;
      }
      dequeued := dequeued + ret;
      InFlight();
      if remaining > 0 || dequeued != enqueued {
        SomeLeft();
        return Running;
      }
      AllSubmitted();
      return Success;
    }

    lemma InFlight()
      requires Valid()
      ensures |workq.submitted| == |workq.inflight| + |workq.retrieved|
    {
      SettledCounts(workq.submitted, workq.inflight, workq.retrieved);
    }

    lemma AllSubmitted()
      requires Valid() && Counted() && remaining == 0 && dequeued == enqueued
      ensures workq.submitted == Jobs(dataLen) && workq.inflight == []
      ensures multiset(workq.retrieved) == multiset(Jobs(dataLen))
    {
      SettledCounts(workq.submitted, workq.inflight, workq.retrieved);
      PlanEnds(dataLen, workq.submitted, userData);
    }

    lemma SomeLeft()
      requires Valid() && Counted() && (remaining > 0 || dequeued != enqueued)
      ensures |workq.retrieved| < JobCount(dataLen)
    {
      InFlight();
      if remaining > 0 {
        PlanLeft(dataLen, workq.submitted, userData, remaining);
      }
    }
  }

  /** `regex_scan` watched for at most `passes` passes of its main loop. Success means that every
      job of the plan was submitted once and retrieved once, and comes as soon as that is so; an I/O
      error means that the queue failed outright. With a queue that always accepts and completes,
      one pass for each job is enough. */
  method Scan(len: nat, passes: nat, eager: bool)
    returns (status: Status, ghost submitted: seq<Job>, ghost retrieved: seq<Job>, ghost failed: bool)
    ensures status == InvalidValue <==> len == 0
    ensures status == IoFailed <==> len > 0 && failed
    ensures status == Success ==> len > 0 && submitted == Jobs(len) && multiset(retrieved) == multiset(Jobs(len))
    ensures status == Running ==> len > 0 && |submitted| <= JobCount(len) && submitted == Jobs(len)[..|submitted|]
    ensures status == Running && passes > 0 ==> |retrieved| < JobCount(len)
    ensures len > 0 && eager && passes > 0 && passes >= JobCount(len) ==> status == Success
  {
    submitted, retrieved, failed := [], [], false;
    if len == 0 {
      return InvalidValue, [], [], false;
    }
    var scan := new RegexScan(len, eager);
    status := Running;
    var k := 0;
    while k < passes && status == Running
      invariant status != InvalidValue && k <= passes
      invariant status == IoFailed <==> scan.workq.failed
      invariant status == Running || status == Success ==> scan.Valid() && scan.Counted()
      invariant fresh(scan) && fresh(scan.workq) && scan.dataLen == len && scan.workq.eager == eager
      invariant status == Success ==>
                  scan.workq.submitted == Jobs(len) && multiset(scan.workq.retrieved) == multiset(Jobs(len))
      invariant status == Running && k > 0 ==> |scan.workq.retrieved| < JobCount(len)
      invariant eager ==> !scan.workq.failed && scan.workq.inflight == []
      invariant eager && status == Running ==> |scan.workq.retrieved| == |scan.workq.submitted| == k
      decreases passes - k
    {
      status := scan.Pass();
      k := k + 1;
    }
    submitted, retrieved, failed := scan.workq.submitted, scan.workq.retrieved, scan.workq.failed;
  }
}
