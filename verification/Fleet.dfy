/**
 All workers of regex-test.c together: each takes its own queue id and statistics slot, and
 `app_stats_dump` adds the slots up bucket by bucket.
 */
module Fleet {
  import opened Arith
  import opened Text
  import opened Histogram
  import opened PacketLedger
  import opened PacketWorker

  datatype Bucket = Bucket(enqBursts: nat, enqPackets: nat, deqBursts: nat, deqPackets: nat)

  const MAX_WORKER_THREADS := 32
  const EMPTY := Bucket(0, 0, 0, 0)

  /** `worker_run` for one lcore after the other: the queue id is the incremented counter minus
      one, ids above the queue count are sent home, and of the others those whose initialisation
      does not fail (None stands for one that does) write their own slot. The program starts as many
      workers as there are queues; then every result is kept, in a slot below the queue count. */
  method Launch(results: seq<Option<seq<Bucket>>>, totalQueues: nat) returns (stats: seq<Option<seq<Bucket>>>)
    requires |results| <= MAX_WORKER_THREADS
    ensures |stats| == MAX_WORKER_THREADS
    ensures forall k :: 0 <= k < |stats| ==> stats[k] == if k < |results| && k <= totalQueues then results[k] else None
    ensures |results| == totalQueues ==> stats[..totalQueues] == results
  {
    var slots := new Option<seq<Bucket>>[MAX_WORKER_THREADS](_ => None);
    var wqId := 0;
    for lcore := 0 to |results|
      invariant wqId == lcore
      invariant forall k :: 0 <= k < slots.Length ==>
                  slots[k] == if k < lcore && k <= totalQueues then results[k] else None
    {
      wqId := wqId + 1;
      var qid := wqId - 1;
      if qid <= totalQueues && results[lcore].Some? {
        slots[qid] := results[lcore];
      }
    }
    stats := slots[..];
  }

  /** What the dump shows for bucket j: sums over the workers. The burst counter of the enqueue
      side is fed from the packet counter. */
  function Column(stats: seq<Option<seq<Bucket>>>, j: nat): Bucket
    requires forall w :: w in stats && w.Some? ==> j < |w.value|
  {
    if stats == [] then EMPTY
    else
      var c, last := Column(stats[..|stats| - 1], j), stats[|stats| - 1];
      if last.None? then c
      else
        var b := last.value[j];
        Bucket(c.enqBursts + b.enqPackets, c.enqPackets + b.enqPackets,
               c.deqBursts + b.deqBursts, c.deqPackets + b.deqPackets)
  }

  /** The first summation loop of `app_stats_dump`. */
  method AggregateStats(stats: seq<Option<seq<Bucket>>>, workers: nat, buckets: nat) returns (total: seq<Bucket>)
    requires workers <= |stats|
    requires forall w :: w in stats && w.Some? ==> |w.value| == buckets
    ensures |total| == buckets
    ensures forall j :: 0 <= j < buckets ==> total[j] == Column(stats[..workers], j)
  {
    var s := new Bucket[buckets](_ => EMPTY);
    for i := 0 to workers
      invariant forall j :: 0 <= j < buckets ==> s[j] == Column(stats[..i], j)
    {
      assert stats[..i + 1][..i] == stats[..i];
      assert stats[i] in stats;
      if stats[i].Some? {
        for j := 0 to buckets
          invariant forall k :: 0 <= k < j ==> s[k] == Column(stats[..i + 1], k)
          invariant forall k :: j <= k < buckets ==> s[k] == Column(stats[..i], k)
        {
          var b := stats[i].value[j];
          s[j] := Bucket(s[j].enqBursts + b.enqPackets, s[j].enqPackets + b.enqPackets,
                         s[j].deqBursts + b.deqBursts, s[j].deqPackets + b.deqPackets);
        }
      }
    }
    total := s[..];
  }

  // ----- the totals over all buckets -----

  function EnqPackets(bs: seq<Bucket>): (a: seq<nat>)
    ensures |a| == |bs|
  {
    seq(|bs|, j requires 0 <= j < |bs| => bs[j].enqPackets)
  }

  function DeqPackets(bs: seq<Bucket>): (a: seq<nat>)
    ensures |a| == |bs|
  {
    seq(|bs|, j requires 0 <= j < |bs| => bs[j].deqPackets)
  }

  lemma {:induction false} SumPointwise(a: seq<nat>, b: seq<nat>, c: seq<nat>)
    requires |a| == |b| == |c|
    requires forall j :: 0 <= j < |a| ==> c[j] == a[j] + b[j]
    ensures Sum(c) == Sum(a) + Sum(b)
  {
    if a != [] {
      SumPointwise(a[1..], b[1..], c[1..]);
    }
  }

  function Columns(stats: seq<Option<seq<Bucket>>>, buckets: nat): (bs: seq<Bucket>)
    requires forall w :: w in stats && w.Some? ==> |w.value| == buckets
    ensures |bs| == buckets
  {
    seq(buckets, j requires 0 <= j < buckets => Column(stats, j))
  }

  /** Per worker, the packets counted as enqueued and not as dequeued. */
  ghost predicate Accounts(stats: seq<Option<seq<Bucket>>>, inflight: seq<nat>) {
    |inflight| == |stats| &&
    forall i :: 0 <= i < |stats| ==>
      (stats[i].Some? ==> Sum(EnqPackets(stats[i].value)) == Sum(DeqPackets(stats[i].value)) + inflight[i]) &&
      (stats[i].None? ==> inflight[i] == 0)
  }

  /** Per-worker accounts add up in the dump, over all buckets. */
  lemma {:induction false} FleetAccounts(stats: seq<Option<seq<Bucket>>>, inflight: seq<nat>, buckets: nat)
    requires forall w :: w in stats && w.Some? ==> |w.value| == buckets
    requires Accounts(stats, inflight)
    ensures Sum(EnqPackets(Columns(stats, buckets))) == Sum(DeqPackets(Columns(stats, buckets))) + Sum(inflight)
  {
    var all := Columns(stats, buckets);
    if stats == [] {
      SumZero(EnqPackets(all));
      SumZero(DeqPackets(all));
    } else {
      var k := |stats| - 1;
      var before := Columns(stats[..k], buckets);
      FleetAccounts(stats[..k], inflight[..k], buckets);
      assert stats[k] in stats;
      assert inflight == inflight[..k] + [inflight[k]];
      SumAppend(inflight[..k], [inflight[k]]);
      if stats[k].None? {
        assert all == before;
      } else {
        var bs := stats[k].value;
        SumPointwise(EnqPackets(before), EnqPackets(bs), EnqPackets(all));
        SumPointwise(DeqPackets(before), DeqPackets(bs), DeqPackets(all));
      }
    }
  }

  // ----- the whole program -----

  /** What a worker hands over: its two histograms, bucket by bucket. */
  method Slot(w: Worker) returns (slot: seq<Bucket>)
    requires w.enq.bursts.Length == w.enq.packets.Length == w.deq.bursts.Length == w.deq.packets.Length
    ensures |slot| == w.enq.packets.Length
    ensures forall j :: 0 <= j < |slot| ==>
              slot[j] == Bucket(w.enq.bursts[j], w.enq.packets[j], w.deq.bursts[j], w.deq.packets[j])
  {
    slot := [];
    for j := 0 to w.enq.packets.Length
      invariant |slot| == j
      invariant forall k :: 0 <= k < j ==>
                  slot[k] == Bucket(w.enq.bursts[k], w.enq.packets[k], w.deq.bursts[k], w.deq.packets[k])
    {
      slot := slot + [Bucket(w.enq.bursts[j], w.enq.packets[j], w.deq.bursts[j], w.deq.packets[j])];
    }
  }

  /** What a worker did: the answers it got pass by pass, and what it drained at the end. */
  datatype WorkerRun = WorkerRun(answers: seq<Answers>, chunks: seq<seq<Packet>>)

  /** The calls of a worker that made `polls` passes are those that its answers describe. */
  ghost predicate Ran(mode: Mode, polls: nat, r: WorkerRun, trace: seq<Event>) {
    && |r.answers| == polls && IsRun(mode, r.answers) && Bounded(mode, r.answers)
    && trace == RunEvents(mode, r.answers) +
                if mode.regex then DrainEvents(mode, r.chunks) + [Complete([], mode.burst)] else []
  }

  /** Bucket b of the bursts that the device accepted and of those that it completed. */
  function BucketOf(accepted: seq<nat>, completed: seq<nat>, b: nat, size: nat): Bucket {
    Bucket(BurstsIn(accepted, b, size), PacketsIn(accepted, b, size),
           BurstsIn(completed, b, size), PacketsIn(completed, b, size))
  }

  ghost predicate SlotOf(slot: seq<Bucket>, mode: Mode, size: nat, r: WorkerRun)
    requires size > 0
  {
    && |slot| == mode.burst / size
    && forall b :: 0 <= b < |slot| ==>
         slot[b] == BucketOf(Accepted(mode, r.answers), Completed(mode, r.answers), b, size)
  }

  /** One worker from its start to the end of its drain, against a given environment. Its slot shows
      exactly the bursts that the device accepted and completed; what it shows as enqueued and not as
      dequeued was drained, which is not charged, or is left in the device. */
  method RunWorker(mode: Mode, bucketSize: nat, w: World, polls: nat) returns (slot: seq<Bucket>, ghost r: WorkerRun)
    requires bucketSize > 0 && w.Valid() && w.trace == [] && w.ledger == NO_PACKETS
    modifies w
    ensures w.Valid() && Ran(mode, polls, r, w.trace) && SlotOf(slot, mode, bucketSize, r)
    ensures mode.burst % bucketSize == 0 ==>
              Sum(EnqPackets(slot)) == Sum(DeqPackets(slot)) + Total(r.chunks) + |w.ledger.inflight|
    ensures w.eager && mode.burst > 0 && mode.regex ==> w.ledger.inflight == multiset{}
  {
    hide Legal, Replay, World.Valid, OneOwnerEach, IsRun, RunEvents, DrainEvents, ReceivedTotal, Total, Sum;
    hide Accepted, Completed, BurstsIn, PacketsIn, Bounded;
    var worker := new Worker(mode, bucketSize);
    var answers, chunks := worker.Run(w, polls);
    r := WorkerRun(answers, chunks);
    slot := Slot(worker);
    assert EnqPackets(slot) == worker.enq.packets[..] && DeqPackets(slot) == worker.deq.packets[..];
    SlotTallies(slot, worker.enq.bursts[..], worker.enq.packets[..], worker.deq.bursts[..], worker.deq.packets[..],
                mode, bucketSize, r);
  }

  lemma SlotTallies(slot: seq<Bucket>, eb: seq<nat>, ep: seq<nat>, db: seq<nat>, dp: seq<nat>,
                    mode: Mode, size: nat, r: WorkerRun)
    requires size > 0 && |slot| == |eb| == |ep| == |db| == |dp| == mode.burst / size
    requires forall j :: 0 <= j < |slot| ==> slot[j] == Bucket(eb[j], ep[j], db[j], dp[j])
    requires Tally(eb, ep, Accepted(mode, r.answers), size) && Tally(db, dp, Completed(mode, r.answers), size)
    ensures SlotOf(slot, mode, size, r)
  {
    hide Accepted, Completed, BurstsIn, PacketsIn;
  }

  function AllAccepted(mode: Mode, runs: seq<Option<WorkerRun>>): seq<nat> {
    if runs == [] then []
    else
      var last := runs[|runs| - 1];
      AllAccepted(mode, runs[..|runs| - 1]) + if last.Some? then Accepted(mode, last.value.answers) else []
  }

  function AllCompleted(mode: Mode, runs: seq<Option<WorkerRun>>): seq<nat> {
    if runs == [] then []
    else
      var last := runs[|runs| - 1];
      AllCompleted(mode, runs[..|runs| - 1]) + if last.Some? then Completed(mode, last.value.answers) else []
  }

  /** The slots handed over are those of the workers that ran. */
  ghost predicate SlotsOf(results: seq<Option<seq<Bucket>>>, mode: Mode, size: nat, runs: seq<Option<WorkerRun>>)
    requires size > 0
  {
    |results| == |runs| && forall i :: 0 <= i < |runs| ==>
      (results[i].Some? <==> runs[i].Some?) &&
      (runs[i].Some? ==> SlotOf(results[i].value, mode, size, runs[i].value) && Bounded(mode, runs[i].value.answers))
  }

  /** A column of the dump: the bursts of all workers that belong into the bucket. */
  lemma {:induction false} ColumnIs(results: seq<Option<seq<Bucket>>>, mode: Mode, size: nat,
                                    runs: seq<Option<WorkerRun>>, b: nat)
    requires size > 0 && SlotsOf(results, mode, size, runs) && b < mode.burst / size
    requires forall w :: w in results && w.Some? ==> |w.value| == mode.burst / size
    ensures var acc, com := AllAccepted(mode, runs), AllCompleted(mode, runs);
            Column(results, b) == BucketOf(acc, com, b, size).(enqBursts := PacketsIn(acc, b, size))
  {
    hide Accepted, Completed, BurstsIn, PacketsIn, Bounded;
    if runs == [] {
      NoBursts(b, size);
    } else {
      var k := |runs| - 1;
      assert results[k] in results && forall w :: w in results[..k] ==> w in results;
      assert SlotsOf(results[..k], mode, size, runs[..k]);
      ColumnIs(results[..k], mode, size, runs[..k], b);
      if runs[k].Some? {
        InAppend(AllAccepted(mode, runs[..k]), Accepted(mode, runs[k].value.answers), b, size);
        InAppend(AllCompleted(mode, runs[..k]), Completed(mode, runs[k].value.answers), b, size);
      } else {
        assert AllAccepted(mode, runs) == AllAccepted(mode, runs[..k]);
        assert AllCompleted(mode, runs) == AllCompleted(mode, runs[..k]);
      }
    }
  }

  lemma NoBursts(b: nat, size: nat)
    ensures BurstsIn([], b, size) == 0 && PacketsIn([], b, size) == 0
  {
  }

  lemma {:induction false} AllBounded(mode: Mode, runs: seq<Option<WorkerRun>>)
    requires forall r :: r in runs && r.Some? ==> Bounded(mode, r.value.answers)
    ensures forall n :: n in AllAccepted(mode, runs) || n in AllCompleted(mode, runs) ==> n <= mode.burst
  {
    hide Accepted, Completed, Bounded;
    if runs != [] {
      var k := |runs| - 1;
      assert runs[k] in runs && forall r :: r in runs[..k] ==> r in runs;
      AllBounded(mode, runs[..k]);
      if runs[k].Some? {
        ChargesBounded(mode, runs[k].value.answers);
        var acc, com := Accepted(mode, runs[k].value.answers), Completed(mode, runs[k].value.answers);
        assert AllAccepted(mode, runs) == AllAccepted(mode, runs[..k]) + acc;
        assert AllCompleted(mode, runs) == AllCompleted(mode, runs[..k]) + com;
      } else {
        assert AllAccepted(mode, runs) == AllAccepted(mode, runs[..k]);
        assert AllCompleted(mode, runs) == AllCompleted(mode, runs[..k]);
      }
    }
  }

  /** Over all buckets the dump shows all packets accepted and completed, when every burst has a bucket. */
  lemma DumpTotals(total: seq<Bucket>, mode: Mode, size: nat, runs: seq<Option<WorkerRun>>)
    requires size > 0 && mode.burst % size == 0 && |total| == mode.burst / size
    requires forall r :: r in runs && r.Some? ==> Bounded(mode, r.value.answers)
    requires var acc, com := AllAccepted(mode, runs), AllCompleted(mode, runs);
             forall b :: 0 <= b < |total| ==>
               total[b] == BucketOf(acc, com, b, size).(enqBursts := PacketsIn(acc, b, size))
    ensures Sum(EnqPackets(total)) == Sum(AllAccepted(mode, runs))
    ensures Sum(DeqPackets(total)) == Sum(AllCompleted(mode, runs))
  {
    var acc, com := AllAccepted(mode, runs), AllCompleted(mode, runs);
    AllBounded(mode, runs);
    assert mode.burst == mode.burst / size * size;
    hide AllAccepted, AllCompleted, BurstsIn, PacketsIn, Bounded, Sum;
    var n := |total|;
    TallyTotal(seq(n, b requires 0 <= b < n => BurstsIn(acc, b, size)), EnqPackets(total), acc, size);
    TallyTotal(seq(n, b requires 0 <= b < n => BurstsIn(com, b, size)), DeqPackets(total), com, size);
  }

  function Drained(runs: seq<Option<WorkerRun>>): nat {
    if runs == [] then 0
    else
      var last := runs[|runs| - 1];
      Drained(runs[..|runs| - 1]) + if last.Some? then Total(last.value.chunks) else 0
  }

  ghost predicate Untouched(w: World)
    reads w
  {
    w.Valid() && w.trace == [] && w.ledger == NO_PACKETS
  }

  /** The environments of the workers are separate and unused. */
  ghost predicate Unused(worlds: seq<World>)
    reads worlds
  {
    && (forall i, j :: 0 <= i < j < |worlds| ==> worlds[i] != worlds[j])
    && forall i :: 0 <= i < |worlds| ==> Untouched(worlds[i])
  }

  lemma SlotsSnoc(results: seq<Option<seq<Bucket>>>, mode: Mode, size: nat, runs: seq<Option<WorkerRun>>,
                  result: Option<seq<Bucket>>, run: Option<WorkerRun>)
    requires size > 0 && SlotsOf(results, mode, size, runs) && (result.Some? <==> run.Some?)
    requires run.Some? ==> SlotOf(result.value, mode, size, run.value) && Bounded(mode, run.value.answers)
    ensures SlotsOf(results + [result], mode, size, runs + [run])
    ensures Drained(runs + [run]) == Drained(runs) + if run.Some? then Total(run.value.chunks) else 0
  {
    hide SlotOf, Bounded, Total;
    assert (runs + [run])[..|runs|] == runs;
  }

  lemma AccountsSnoc(results: seq<Option<seq<Bucket>>>, open: seq<nat>, result: Option<seq<Bucket>>, o: nat)
    requires Accounts(results, open)
    requires if result.Some? then Sum(EnqPackets(result.value)) == Sum(DeqPackets(result.value)) + o else o == 0
    ensures Accounts(results + [result], open + [o])
  {
    hide Sum;
  }

  /** What has been handed over so far, and its account. */
  ghost predicate Handed(results: seq<Option<seq<Bucket>>>, mode: Mode, size: nat, runs: seq<Option<WorkerRun>>,
                         open: seq<nat>, left: seq<nat>)
    requires size > 0
  {
    && SlotsOf(results, mode, size, runs)
    && (mode.burst % size == 0 ==> Accounts(results, open) && Sum(open) == Drained(runs) + Sum(left))
  }

  lemma NoSlots(mode: Mode, size: nat)
    requires size > 0
    ensures Handed([], mode, size, [], [], [])
  {
  }

  lemma HandedSnoc(results: seq<Option<seq<Bucket>>>, mode: Mode, size: nat, runs: seq<Option<WorkerRun>>,
                   open: seq<nat>, left: seq<nat>,
                   result: Option<seq<Bucket>>, run: Option<WorkerRun>, o: nat, l: nat)
    requires size > 0 && Handed(results, mode, size, runs, open, left) && (result.Some? <==> run.Some?)
    requires run.Some? ==> SlotOf(result.value, mode, size, run.value) && Bounded(mode, run.value.answers)
    requires mode.burst % size == 0 && run.Some? ==> Sum(EnqPackets(result.value)) == Sum(DeqPackets(result.value)) + o
    requires if run.Some? then o == Total(run.value.chunks) + l else o == l == 0
    ensures Handed(results + [result], mode, size, runs + [run], open + [o], left + [l])
  {
    hide SlotsOf, SlotOf, Bounded, Accounts, Drained, Sum, Total;
    SlotsSnoc(results, mode, size, runs, result, run);
    if mode.burst % size == 0 {
      AccountsSnoc(results, open, result, o);
      SumSnoc(open, o);
      SumSnoc(left, l);
    }
  }

  lemma SlotLengths(results: seq<Option<seq<Bucket>>>, mode: Mode, size: nat, runs: seq<Option<WorkerRun>>)
    requires size > 0 && SlotsOf(results, mode, size, runs)
    ensures forall w :: w in results && w.Some? ==> |w.value| == mode.burst / size
  {
  }

  /** What is known of one worker and its environment afterwards. */
  ghost predicate Finished(w: World, mode: Mode, initialised: bool, polls: nat, run: Option<WorkerRun>, left: nat)
    reads w
  {
    && w.Valid() && left == |w.ledger.inflight|
    && (if initialised then run.Some? && Ran(mode, polls, run.value, w.trace) else run == None && w.trace == [])
    && (w.eager && mode.burst > 0 && mode.regex ==> left == 0)
  }

  /** `worker_run` for one worker: a failed initialisation ends it at once. */
  method RunOne(mode: Mode, bucketSize: nat, w: World, initialised: bool, polls: nat)
    returns (result: Option<seq<Bucket>>, ghost run: Option<WorkerRun>, ghost left: nat)
    requires bucketSize > 0 && Untouched(w)
    modifies w
    ensures Finished(w, mode, initialised, polls, run, left) && (result.Some? <==> run.Some?)
    ensures run.Some? ==> SlotOf(result.value, mode, bucketSize, run.value) && Bounded(mode, run.value.answers)
    ensures mode.burst % bucketSize == 0 && run.Some? ==>
              Sum(EnqPackets(result.value)) == Sum(DeqPackets(result.value)) + Total(run.value.chunks) + left
    ensures run.None? ==> left == 0
  {
    hide World.Valid, RunEvents, DrainEvents, IsRun, Sum, Total, SlotOf, Bounded;
    result, run := None, None;
    if initialised {
      var slot, r := RunWorker(mode, bucketSize, w, polls);
      result := Some(slot);
      run := Some(r);
    }
    left := |w.ledger.inflight|;
  }

  /** All workers run and hand over their slots. */
  method RunAll(mode: Mode, bucketSize: nat, worlds: seq<World>, initialised: seq<bool>, polls: seq<nat>)
    returns (results: seq<Option<seq<Bucket>>>, ghost runs: seq<Option<WorkerRun>>, ghost left: seq<nat>)
    requires bucketSize > 0 && |worlds| == |initialised| == |polls| && Unused(worlds)
    modifies worlds
    ensures |runs| == |left| == |worlds|
    ensures forall i :: 0 <= i < |worlds| ==> Finished(worlds[i], mode, initialised[i], polls[i], runs[i], left[i])
    ensures SlotsOf(results, mode, bucketSize, runs)
    ensures mode.burst % bucketSize == 0 ==> exists open ::
              Accounts(results, open) && Sum(open) == Drained(runs) + Sum(left)
  {
    results, runs, left := [], [], [];
    ghost var open: seq<nat> := [];
    NoSlots(mode, bucketSize);
    assert forall i, j :: 0 <= i < j < |worlds| ==> worlds[i] != worlds[j];
    hide *;
    for k := 0 to |worlds|
      invariant |results| == |runs| == |left| == k
      invariant forall i :: k <= i < |worlds| ==> Untouched(worlds[i])
      invariant forall i :: 0 <= i < k ==> Finished(worlds[i], mode, initialised[i], polls[i], runs[i], left[i])
      invariant Handed(results, mode, bucketSize, runs, open, left)
    {
      hide *;
      assert forall i :: 0 <= i < |worlds| && i != k ==> worlds[i] != worlds[k];
      var result, run, l := RunOne(mode, bucketSize, worlds[k], initialised[k], polls[k]);
      ghost var o := if run.Some? then Total(run.value.chunks) + l else 0;
      HandedSnoc(results, mode, bucketSize, runs, open, left, result, run, o, l);
      results := results + [result];
      runs, open, left := runs + [run], open + [o], left + [l];
    }
  }

  /** The program: all workers run against their environments and are dumped. Bucket by bucket the dump
      shows the bursts that the devices accepted and completed in all workers that ran (the burst
      counter of the enqueue side shows packets). When every burst has a bucket, its totals are all
      packets accepted and completed, and their difference was drained at the end or is left in the
      devices, none of it in devices that report nothing only when they are empty. */
  method RunApp(mode: Mode, bucketSize: nat, worlds: seq<World>, initialised: seq<bool>, polls: seq<nat>)
    returns (total: seq<Bucket>, ghost runs: seq<Option<WorkerRun>>, ghost left: seq<nat>)
    requires bucketSize > 0 && |worlds| == |initialised| == |polls| <= MAX_WORKER_THREADS && Unused(worlds)
    modifies worlds
    ensures |runs| == |left| == |worlds|
    ensures forall i :: 0 <= i < |worlds| ==> Finished(worlds[i], mode, initialised[i], polls[i], runs[i], left[i])
    ensures |total| == mode.burst / bucketSize
    ensures var acc, com := AllAccepted(mode, runs), AllCompleted(mode, runs);
            forall b :: 0 <= b < |total| ==>
              total[b] == BucketOf(acc, com, b, bucketSize).(enqBursts := PacketsIn(acc, b, bucketSize))
    ensures mode.burst % bucketSize == 0 ==>
              && Sum(EnqPackets(total)) == Sum(AllAccepted(mode, runs))
              && Sum(DeqPackets(total)) == Sum(AllCompleted(mode, runs))
              && Sum(AllAccepted(mode, runs)) == Sum(AllCompleted(mode, runs)) + Drained(runs) + Sum(left)
  {
    hide Sum, Finished, AllAccepted, AllCompleted, Drained, BucketOf, PacketsIn, SlotOf, World.Valid, Bounded;
    var results;
    results, runs, left := RunAll(mode, bucketSize, worlds, initialised, polls);
    SlotLengths(results, mode, bucketSize, runs);
    var stats := Launch(results, |polls|);
    var buckets := mode.burst / bucketSize;
    assert forall w :: w in stats ==> w == None || w in results;
    total := AggregateStats(stats, |polls|, buckets);
    assert total == Columns(results, buckets);
    forall b | 0 <= b < buckets
      ensures var acc, com := AllAccepted(mode, runs), AllCompleted(mode, runs);
              total[b] == BucketOf(acc, com, b, bucketSize).(enqBursts := PacketsIn(acc, b, bucketSize))
    {
      ColumnIs(results, mode, bucketSize, runs, b);
    }
    if mode.burst % bucketSize == 0 {
      DumpTotals(total, mode, bucketSize, runs);
      ghost var open :| Accounts(results, open) && Sum(open) == Drained(runs) + Sum(left);
      FleetAccounts(results, open, buckets);
    }
  }
}
