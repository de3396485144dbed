/**
 The receive loop of one worker of regex-test.c, run against an environment that may accept only
 part of a burst, complete packets out of order and transmit only some of them.
 */
module PacketWorker {
  import opened Arith
  import opened Text
  import opened PacketLedger
  import opened Histogram
  import opened RoundRobin

  /** One slot of the `ops` array, shared by the enqueue and the dequeue call. */
  datatype Op = Op(mbuf: Packet, userPtr: Packet, group: nat)

  function UserPtrs(ops: seq<Op>): (ps: seq<Packet>)
    ensures |ps| == |ops|
  {
    seq(|ops|, i requires 0 <= i < |ops| => ops[i].userPtr)
  }

  function Groups(ops: seq<Op>): (gs: seq<nat>)
    ensures |gs| == |ops|
  {
    seq(|ops|, i requires 0 <= i < |ops| => ops[i].group)
  }

  /** Ports, packet pool and regex device. Every answer is an arbitrary choice within the bounds
      of the call; each call requires that the worker owns the packets it passes. An `eager`
      device reports nothing to dequeue only when nothing is in flight. */
  class World {
    const eager: bool
    ghost var trace: seq<Event>
    var ledger: Ledger

    ghost predicate Valid()
      reads this
    {
      Legal(trace) && ledger == Replay(trace)
    }

    lemma AccountsNow()
      requires Valid() && ledger.held == multiset{}
      ensures OneOwnerEach(ledger)
      ensures ledger.received == |ledger.sent| + |ledger.freed| + |ledger.inflight|
      ensures ledger.received == |ledger.sent| + |ledger.freed| <==> ledger.inflight == multiset{}
    {
      OneOwner(trace);
      Conservation(trace);
    }

    constructor (eager: bool)
      ensures Valid() && trace == [] && ledger == NO_PACKETS && this.eager == eager
    {
      this.eager := eager;
      trace := [];
      ledger := NO_PACKETS;
    }

    method RxBurst(pkts: array<Packet>) returns (n: nat)
      requires Valid()
      modifies this, pkts
      ensures Valid() && n <= pkts.Length
      ensures trace == old(trace) + [Receive(n)] && ledger == Apply(old(ledger), Receive(n))
      ensures pkts[..n] == Tokens(old(ledger.received), n)
    {
      hide Legal, Replay;
      n :| 0 <= n <= pkts.Length;
      for i := 0 to n
        invariant pkts[..i] == Tokens(ledger.received, i)
        invariant Valid() && trace == old(trace) && ledger == old(ledger)
      {
        pkts[i] := ledger.received + i;
      }
      LegalSnoc(trace, Receive(n));
      trace := trace + [Receive(n)];
      ledger := Apply(ledger, Receive(n));
    }

    method TxBurst(pkts: seq<Packet>) returns (k: nat)
      requires Valid() && Enabled(ledger, Transmit(pkts, |pkts|))
      modifies this
      ensures Valid() && k <= |pkts|
      ensures trace == old(trace) + [Transmit(pkts[..k], |pkts|)]
      ensures ledger == Apply(old(ledger), Transmit(pkts[..k], |pkts|))
    {
      hide Legal, Replay;
      k :| 0 <= k <= |pkts|;
      SplitBag(pkts, k);
      var e := Transmit(pkts[..k], |pkts|);
      LegalSnoc(trace, e);
      trace := trace + [e];
      ledger := Apply(ledger, e);
    }

    method FreeBulk(pkts: seq<Packet>)
      requires Valid() && Enabled(ledger, Free(pkts))
      modifies this
      ensures Valid()
      ensures trace == old(trace) + [Free(pkts)] && ledger == Apply(old(ledger), Free(pkts))
    {
      hide Legal, Replay;
      LegalSnoc(trace, Free(pkts));
      trace := trace + [Free(pkts)];
      ledger := Apply(ledger, Free(pkts));
    }

    /** The device copies the fields of the ops it accepts; the ops themselves stay. */
    method EnqueueBurst(ops: seq<Op>) returns (k: nat)
      requires Valid() && Enabled(ledger, Enqueue(UserPtrs(ops), Groups(ops), |ops|))
      modifies this
      ensures Valid() && k <= |ops|
      ensures var e := Enqueue(UserPtrs(ops)[..k], Groups(ops)[..k], |ops|);
              trace == old(trace) + [e] && ledger == Apply(old(ledger), e)
    {
      hide Legal, Replay;
      k :| 0 <= k <= |ops|;
      var e := Enqueue(UserPtrs(ops)[..k], Groups(ops)[..k], |ops|);
      SplitBag(UserPtrs(ops), k);
      LegalSnoc(trace, e);
      trace := trace + [e];
      ledger := Apply(ledger, e);
    }

    /** Fills the user pointers of the first k ops with completed packets, in any order. */
    method DequeueBurst(ops: array<Op>, max: nat) returns (k: nat)
      requires Valid() && max <= ops.Length
      modifies this, ops
      ensures Valid() && k <= max
      ensures multiset(UserPtrs(ops[..k])) <= old(ledger.inflight)
      ensures ops[k..] == old(ops[k..])
      ensures var e := Complete(UserPtrs(ops[..k]), max);
              trace == old(trace) + [e] && ledger == Apply(old(ledger), e)
      ensures eager && k == 0 && max > 0 ==> ledger.inflight == multiset{}
    {
      hide Legal, Replay;
      k := PickCompleted(ops, max, ledger.inflight, eager);
      var ps := UserPtrs(ops[..k]);
      LegalSnoc(trace, Complete(ps, max));
      ledger := Apply(ledger, Complete(ps, max));
      trace := trace + [Complete(ps, max)];
    }
  }

  /** Takes any packets out of the in-flight ones, as long as the device feels like it. */
  method PickCompleted(ops: array<Op>, max: nat, inflight: multiset<Packet>, eager: bool) returns (k: nat)
    requires max <= ops.Length
    modifies ops
    ensures k <= max && multiset(UserPtrs(ops[..k])) <= inflight
    ensures ops[k..] == old(ops[k..])
    ensures eager && k == 0 && max > 0 ==> inflight == multiset{}
  {
    k := 0;
    var left := inflight;
    var go: bool :| true;
    while k < max && left != multiset{} && (go || (eager && k == 0))
      invariant k <= max
      invariant left + multiset(UserPtrs(ops[..k])) == inflight
      invariant ops[k..] == old(ops[k..])
      decreases max - k
    {
      var p :| p in left;
      ghost var before := UserPtrs(ops[..k]);
      ops[k] := ops[k].(userPtr := p);
      assert UserPtrs(ops[..k + 1]) == before + [p];
      TakeOne(left, before, p, inflight);
      left := left - multiset{p};
      k := k + 1;
      go :| true;
    }
  }

  lemma TakeOne(left: multiset<Packet>, taken: seq<Packet>, p: Packet, all: multiset<Packet>)
    requires p in left && left + multiset(taken) == all
    ensures (left - multiset{p}) + multiset(taken + [p]) == all
  {
    assert left == (left - multiset{p}) + multiset{p};
  }

  // ----- the specification: which events one poll, one drain step and one run consist of -----

  /** The settings that decide which way a packet goes, and the port burst size. */
  datatype Mode = Mode(regex: bool, hyperscan: bool, forwarding: nat, subsetCnt: nat, burst: nat)

  /** Forwarding sends a prefix and frees the rest; without it everything is freed. */
  function Dispose(mode: Mode, ps: seq<Packet>, k: nat): seq<Event>
    requires k <= |ps|
  {
    if mode.forwarding > 0 then [Transmit(ps[..k], |ps|), Free(ps[k..])] else [Free(ps)]
  }

  /** What the environment answers during one poll: how many packets arrive, how many the device
      accepts, how many of the arrived ones are sent, what the device completes and how many of
      those are sent. */
  datatype Answers = Answers(received: nat, accepted: nat, sentNow: nat, completed: seq<Packet>, sentLater: nat)

  predicate Possible(a: Answers) {
    a.accepted <= a.received && a.sentNow <= a.received && a.sentLater <= |a.completed|
  }

  predicate Dequeues(mode: Mode, a: Answers) {
    mode.regex && !(mode.hyperscan && a.received > 0)
  }

  predicate Enqueues(mode: Mode, a: Answers) {
    mode.regex && !mode.hyperscan && a.received > 0
  }

  /** What happens to a burst that is not empty: it is scanned and dropped or forwarded, or offered to
      the device. `first` packets were received and `prepared` packets offered before. */
  function HandleEvents(mode: Mode, a: Answers, first: nat, prepared: nat): seq<Event>
    requires Possible(a)
  {
    var ps := Tokens(first, a.received);
    if !Enqueues(mode, a) then Dispose(mode, ps, a.sentNow)
    else [Enqueue(ps[..a.accepted], GroupRange(prepared, a.accepted, mode.subsetCnt), a.received)] +
         if a.accepted < a.received then [Free(ps[a.accepted..])] else []
  }

  /** The first half of a poll: take a burst and handle it. */
  function BurstEvents(mode: Mode, a: Answers, first: nat, prepared: nat): seq<Event>
    requires Possible(a)
  {
    [Receive(a.received)] + if a.received == 0 then [] else HandleEvents(mode, a, first, prepared)
  }

  /** The second half: take what the device has completed. */
  function CompletionEvents(mode: Mode, a: Answers): seq<Event>
    requires Possible(a)
  {
    if !Dequeues(mode, a) then []
    else [Complete(a.completed, mode.burst)] + if a.completed == [] then [] else Dispose(mode, a.completed, a.sentLater)
  }

  /** The packets given a rule subset during a poll. */
  function Prepared(mode: Mode, a: Answers): nat {
    if mode.regex then a.received else 0
  }

  /** The burst that a poll charges to the enqueue histogram, if it comes that far: what the device
      accepted, also when that is nothing; */
  function AcceptedBy(mode: Mode, a: Answers): seq<nat> {
    if Enqueues(mode, a) then [a.accepted] else []
  }

  /** and to the dequeue histogram: what the device completed, unless that is nothing. */
  function CompletedBy(mode: Mode, a: Answers): seq<nat> {
    if Dequeues(mode, a) && a.completed != [] then [|a.completed|] else []
  }

  function Accepted(mode: Mode, answers: seq<Answers>): seq<nat> {
    if answers == [] then []
    else Accepted(mode, answers[..|answers| - 1]) + AcceptedBy(mode, answers[|answers| - 1])
  }

  function Completed(mode: Mode, answers: seq<Answers>): seq<nat> {
    if answers == [] then []
    else Completed(mode, answers[..|answers| - 1]) + CompletedBy(mode, answers[|answers| - 1])
  }

  /** No answer is larger than the port burst size. */
  predicate Bounded(mode: Mode, answers: seq<Answers>) {
    forall a :: a in answers ==> a.accepted <= a.received <= mode.burst && |a.completed| <= mode.burst
  }

  lemma {:induction false} ChargesBounded(mode: Mode, answers: seq<Answers>)
    requires Bounded(mode, answers)
    ensures forall n :: n in Accepted(mode, answers) || n in Completed(mode, answers) ==> n <= mode.burst
  {
    if answers != [] {
      var init, a := answers[..|answers| - 1], answers[|answers| - 1];
      assert a in answers && forall b :: b in init ==> b in answers;
      assert Bounded(mode, init);
      ChargesBounded(mode, init);
      hide Bounded;
      forall n | n in Accepted(mode, answers)
        ensures n <= mode.burst
      {
        assert n in Accepted(mode, init) || n in AcceptedBy(mode, a);
      }
      forall n | n in Completed(mode, answers)
        ensures n <= mode.burst
      {
        assert n in Completed(mode, init) || n in CompletedBy(mode, a);
      }
    }
  }

  /** The answers of a run are possible ones. */
  predicate IsRun(mode: Mode, answers: seq<Answers>) {
    forall a :: a in answers ==> Possible(a)
  }

  function ReceivedTotal(answers: seq<Answers>): nat {
    if answers == [] then 0 else ReceivedTotal(answers[..|answers| - 1]) + answers[|answers| - 1].received
  }

  function PreparedTotal(mode: Mode, answers: seq<Answers>): nat {
    if answers == [] then 0
    else PreparedTotal(mode, answers[..|answers| - 1]) + Prepared(mode, answers[|answers| - 1])
  }

  /** All events of the receive loop, poll after poll. */
  function RunEvents(mode: Mode, answers: seq<Answers>): seq<Event>
    requires IsRun(mode, answers)
  {
    if answers == [] then []
    else
      var init, a := answers[..|answers| - 1], answers[|answers| - 1];
      RunEvents(mode, init) + BurstEvents(mode, a, ReceivedTotal(init), PreparedTotal(mode, init)) +
      CompletionEvents(mode, a)
  }

  lemma RunSnoc(mode: Mode, answers: seq<Answers>, a: Answers)
    requires IsRun(mode, answers) && Possible(a)
    ensures IsRun(mode, answers + [a])
    ensures RunEvents(mode, answers + [a]) ==
            RunEvents(mode, answers) + BurstEvents(mode, a, ReceivedTotal(answers), PreparedTotal(mode, answers)) +
            CompletionEvents(mode, a)
    ensures ReceivedTotal(answers + [a]) == ReceivedTotal(answers) + a.received
    ensures PreparedTotal(mode, answers + [a]) == PreparedTotal(mode, answers) + Prepared(mode, a)
    ensures Accepted(mode, answers + [a]) == Accepted(mode, answers) + AcceptedBy(mode, a)
    ensures Completed(mode, answers + [a]) == Completed(mode, answers) + CompletedBy(mode, a)
  {
    assert (answers + [a])[..|answers|] == answers;
  }

  function Singles(ps: seq<Packet>): seq<Event> {
    if ps == [] then [] else [Free([ps[0]])] + Singles(ps[1..])
  }

  lemma {:induction false} SinglesSnoc(ps: seq<Packet>, p: Packet)
    ensures Singles(ps + [p]) == Singles(ps) + [Free([p])]
  {
    if ps != [] {
      assert (ps + [p])[1..] == ps[1..] + [p];
      SinglesSnoc(ps[1..], p);
    }
  }

  /** The drain steps that dequeued something: each chunk is completed and freed packet by packet. */
  function DrainEvents(mode: Mode, chunks: seq<seq<Packet>>): seq<Event> {
    if chunks == [] then []
    else
      var init, c := chunks[..|chunks| - 1], chunks[|chunks| - 1];
      DrainEvents(mode, init) + [Complete(c, mode.burst)] + Singles(c)
  }

  function Total(chunks: seq<seq<Packet>>): nat {
    if chunks == [] then 0 else Total(chunks[..|chunks| - 1]) + |chunks[|chunks| - 1]|
  }

  lemma DrainSnoc(mode: Mode, chunks: seq<seq<Packet>>, c: seq<Packet>)
    ensures DrainEvents(mode, chunks + [c]) == DrainEvents(mode, chunks) + [Complete(c, mode.burst)] + Singles(c)
    ensures Total(chunks + [c]) == Total(chunks) + |c|
  {
    assert (chunks + [c])[..|chunks|] == chunks;
  }

  // ----- the worker -----

  class Worker {
    const mode: Mode
    const burst: nat
    const pktsBurst: array<Packet>
    const collector: array<Packet>
    const ops: array<Op>
    const enq: BurstHistogram
    const deq: BurstHistogram
    var selector: nat
    var pktsRx: nat

    ghost predicate Valid()
      reads this
    {
      && pktsBurst.Length == collector.Length == ops.Length == burst == mode.burst
      && pktsBurst != collector
      && enq.Valid() && deq.Valid()
      && enq.size == deq.size && enq.packets.Length == deq.packets.Length == burst / enq.size
      && pktsBurst !in Counters() && collector !in Counters()
      && {enq.bursts, enq.packets} !! {deq.bursts, deq.packets}
      && (mode.subsetCnt > 1 ==> selector == 1 + pktsRx % mode.subsetCnt)
    }

    ghost function Counters(): set<array<nat>> {
      {enq.bursts, enq.packets, deq.bursts, deq.packets}
    }

    /** Histogram totals and device agree: what was charged on enqueue and not on dequeue is in
        flight. Claimed when the bucket size divides the burst size. */
    ghost predicate Balanced(inflight: nat)
      reads this, enq.packets, deq.packets
    {
      enq.size > 0 && burst % enq.size == 0 ==> Sum(enq.packets[..]) == Sum(deq.packets[..]) + inflight
    }

    constructor (mode: Mode, bucketSize: nat)
      requires bucketSize > 0
      ensures Valid() && this.mode == mode && enq.size == bucketSize
      ensures pktsRx == 0 && Balanced(0) && enq.Shows([]) && deq.Shows([])
      ensures fresh(pktsBurst) && fresh(collector) && fresh(ops) && fresh(Counters())
    {
      this.mode := mode;
      burst := mode.burst;
      pktsBurst := new Packet[mode.burst](_ => 0);
      collector := new Packet[mode.burst](_ => 0);
      ops := new Op[mode.burst](_ => Op(0, 0, 0));
      enq := new BurstHistogram(mode.burst, bucketSize);
      deq := new BurstHistogram(mode.burst, bucketSize);
      selector := 1;
      pktsRx := 0;
    }

    /** `forward_or_free_pkts`. */
    method ForwardOrFree(w: World, pkts: array<Packet>, n: nat) returns (ghost k: nat)
      requires w.Valid() && n <= pkts.Length
      requires multiset(pkts[..n]) == w.ledger.held
      modifies w
      ensures w.Valid() && k <= n
      ensures w.trace == old(w.trace) + Dispose(mode, pkts[..n], k)
      ensures w.ledger.held == multiset{} && w.ledger.inflight == old(w.ledger.inflight)
      ensures w.ledger.received == old(w.ledger.received)
    {
      hide Legal, Replay, Apply, Enabled;
      ghost var ps, l := pkts[..n], w.ledger;
      k := 0;
      if mode.forwarding > 0 {
        GiveAwayAll(l, ps, n, Transmit(ps, n));
        var nbTx := w.TxBurst(pkts[..n]);
        k := nbTx;
        GiveAwayAll(l, ps, k, Transmit(ps[..k], n));
        Effect(l, Transmit(ps[..k], n));
        Effect(w.ledger, Free(ps[k..]));
        assert pkts[nbTx..n] == ps[k..];
        w.FreeBulk(pkts[nbTx..n]);
      } else {
        FreeAll(l, ps);
        w.FreeBulk(pkts[..n]);
      }
    }

    /** The per-packet loop: point the i-th op at the i-th packet and give it the next subset. */
    method PrepareOps(n: nat)
      requires Valid() && n <= burst
      modifies this`selector, this`pktsRx, ops
      ensures Valid() && pktsRx == old(pktsRx) + n
      ensures UserPtrs(ops[..n]) == pktsBurst[..n]
      ensures Groups(ops[..n]) == GroupRange(old(pktsRx), n, mode.subsetCnt)
    {
      for i := 0 to n
        invariant Valid() && pktsRx == old(pktsRx) + i
        invariant forall j :: 0 <= j < i ==> ops[j].userPtr == pktsBurst[j]
        invariant forall j :: 0 <= j < i ==> ops[j].group == GroupOf(old(pktsRx) + j, mode.subsetCnt)
      {
        var pkt := pktsBurst[i];
        ops[i] := ops[i].(mbuf := pkt, userPtr := pkt);
        if mode.subsetCnt > 1 {
          ops[i] := ops[i].(group := selector);
          NextGroup(pktsRx, mode.subsetCnt);
          selector := selector + 1;
          if selector > mode.subsetCnt {
            selector := 1;
          }
        } else {
          ops[i] := ops[i].(group := 1);
        }
        pktsRx := pktsRx + 1;
      }
      assert UserPtrs(ops[..n]) == pktsBurst[..n];
      assert Groups(ops[..n]) == GroupRange(old(pktsRx), n, mode.subsetCnt);
    }

    /** Offers the burst to the device and frees what it does not take. */
    method OfferBurst(w: World, n: nat) returns (enqd: nat)
      requires Valid() && w.Valid() && n <= burst
      requires UserPtrs(ops[..n]) == pktsBurst[..n] && multiset(pktsBurst[..n]) == w.ledger.held
      modifies w
      ensures w.Valid() && enqd <= n
      ensures w.trace == old(w.trace) + [Enqueue(pktsBurst[..n][..enqd], Groups(ops[..n])[..enqd], n)] +
                         if enqd < n then [Free(pktsBurst[..n][enqd..])] else []
      ensures w.ledger.held == multiset{} && |w.ledger.inflight| == |old(w.ledger.inflight)| + enqd
      ensures w.ledger.received == old(w.ledger.received)
    {
      assert pktsBurst.Length == ops.Length == burst;
      hide Legal, Replay, Valid, Apply, Enabled, UserPtrs, Groups;
      ghost var ps, gs, l := pktsBurst[..n], Groups(ops[..n]), w.ledger;
      GiveAwayAll(l, ps, n, Enqueue(ps, gs, n));
      enqd := w.EnqueueBurst(ops[..n]);
      RestOfBurst(l, ps, gs, enqd);
      if enqd < n {
        assert pktsBurst[enqd..n] == ps[enqd..];
        w.FreeBulk(pktsBurst[enqd..n]);
      }
    }

    method ChargeEnqueued(n: nat, ghost inflight: nat, ghost ns: seq<nat>)
      requires Valid() && n <= burst && Balanced(inflight)
      requires enq.Shows(ns)
      modifies enq.bursts, enq.packets
      ensures enq.Shows(ns + [n])
      ensures Valid() && Balanced(inflight + n)
    {
      enq.Record(n, ns);
      BurstIsCharged(n, burst, enq.size);
    }

    method ChargeDequeued(n: nat, ghost inflight: nat, ghost ns: seq<nat>)
      requires Valid() && n <= burst && n <= inflight && Balanced(inflight)
      requires deq.Shows(ns)
      modifies deq.bursts, deq.packets
      ensures deq.Shows(ns + [n])
      ensures Valid() && Balanced(inflight - n)
    {
      deq.Record(n, ns);
      BurstIsCharged(n, burst, deq.size);
    }

    /** Copies the user pointers below the dequeued count; later entries may be remains of an enqueue. */
    method Collect(n: nat)
      requires Valid() && n <= burst
      modifies collector
      ensures collector[..n] == UserPtrs(ops[..n])
    {
      for i := 0 to n
        invariant collector[..i] == UserPtrs(ops[..i])
      {
        collector[i] := ops[i].userPtr;
        assert UserPtrs(ops[..i + 1]) == UserPtrs(ops[..i]) + [ops[i].userPtr];
      }
    }

    /** A burst that is not empty is forwarded or freed, or prepared and offered. */
    method HandleBurst(w: World, nbRx: nat, ghost first: nat, ghost ns: seq<nat>) returns (ghost a: Answers)
      requires Valid() && w.Valid() && 0 < nbRx <= burst
      requires pktsBurst[..nbRx] == Tokens(first, nbRx) && multiset(pktsBurst[..nbRx]) == w.ledger.held
      requires Balanced(|w.ledger.inflight|) && enq.Shows(ns)
      modifies this`selector, this`pktsRx, ops, w, enq.bursts, enq.packets
      ensures enq.Shows(ns + AcceptedBy(mode, a))
      ensures Valid() && w.Valid() && Possible(a)
      ensures a.received == nbRx && a.completed == [] && a.sentLater == 0
      ensures w.trace == old(w.trace) + HandleEvents(mode, a, first, old(pktsRx))
      ensures w.ledger.received == old(w.ledger.received)
      ensures pktsRx == old(pktsRx) + Prepared(mode, a)
      ensures w.ledger.held == multiset{} && Balanced(|w.ledger.inflight|)
      ensures !Enqueues(mode, a) ==> w.ledger.inflight == old(w.ledger.inflight)
    {
      hide World.Valid, Sum, Apply, Enabled, BurstHistogram.Shows;
      assert ns + [] == ns;
      a := Answers(nbRx, 0, 0, [], 0);
      if mode.regex {
        PrepareOps(nbRx);
      }
      if !mode.regex || mode.hyperscan {
        var k := ForwardOrFree(w, pktsBurst, nbRx);
        a := a.(sentNow := k);
      } else {
        var enqd := OfferBurst(w, nbRx);
        ChargeEnqueued(enqd, |old(w.ledger.inflight)|, ns);
        a := a.(accepted := enqd);
        assert GroupRange(old(pktsRx), nbRx, mode.subsetCnt)[..enqd]
            == GroupRange(old(pktsRx), enqd, mode.subsetCnt);
      }
    }

    /** One half of the loop body: receive, then forward, scan or offer. */
    method PollBurst(w: World, ghost ns: seq<nat>) returns (nbRx: nat, ghost a: Answers)
      requires Valid() && w.Valid() && w.ledger.held == multiset{}
      requires Balanced(|w.ledger.inflight|) && enq.Shows(ns)
      modifies this`selector, this`pktsRx, pktsBurst, ops, w, enq.bursts, enq.packets
      ensures enq.Shows(ns + AcceptedBy(mode, a))
      ensures Valid() && w.Valid() && Possible(a)
      ensures a.received == nbRx <= burst && a.completed == [] && a.sentLater == 0
      ensures w.trace == old(w.trace) + BurstEvents(mode, a, old(w.ledger.received), old(pktsRx))
      ensures w.ledger.received == old(w.ledger.received) + a.received
      ensures pktsRx == old(pktsRx) + Prepared(mode, a)
      ensures w.ledger.held == multiset{} && Balanced(|w.ledger.inflight|)
      ensures !Enqueues(mode, a) ==> w.ledger.inflight == old(w.ledger.inflight)
    {
      hide World.Valid, Sum, Apply, Enabled, BurstHistogram.Shows, HandleEvents;
      ghost var l := w.ledger;
      assert ns + [] == ns;
      nbRx := w.RxBurst(pktsBurst);
      EffectOfReceive(l, nbRx);
      assert multiset(pktsBurst[..nbRx]) == w.ledger.held;
      if nbRx > 0 {
        a := HandleBurst(w, nbRx, l.received, ns);
      } else {
        a := Answers(nbRx, 0, 0, [], 0);
        assert Tokens(l.received, 0) == [];
      }
    }

    /** The other half: dequeue, charge the histogram, collect the user pointers below the
        dequeued count and forward or free exactly those packets. */
    method PollCompletions(w: World, ghost ns: seq<nat>) returns (ghost completed: seq<Packet>, ghost sentLater: nat)
      requires Valid() && w.Valid() && w.ledger.held == multiset{} && mode.regex
      requires Balanced(|w.ledger.inflight|) && deq.Shows(ns)
      modifies collector, ops, w, deq.bursts, deq.packets
      ensures deq.Shows(if completed == [] then ns else ns + [|completed|])
      ensures Valid() && w.Valid() && sentLater <= |completed| <= burst
      ensures w.trace == old(w.trace) + [Complete(completed, burst)] +
                         if completed == [] then [] else Dispose(mode, completed, sentLater)
      ensures multiset(completed) <= old(w.ledger.inflight)
      ensures w.ledger.received == old(w.ledger.received)
      ensures w.ledger.held == multiset{} && Balanced(|w.ledger.inflight|)
      ensures old(w.ledger.inflight) == multiset{} ==> w.ledger.inflight == multiset{}
    {
      hide Legal, Replay, Sum, Apply, Enabled, BurstHistogram.Shows;
      ghost var l := w.ledger;
      var dqd := w.DequeueBurst(ops, burst);
      completed, sentLater := UserPtrs(ops[..dqd]), 0;
      EffectOfComplete(l, completed, burst);
      if dqd > 0 {
        ChargeDequeued(dqd, |old(w.ledger.inflight)|, ns);
        Collect(dqd);
        sentLater := ForwardOrFree(w, collector, dqd);
      } else {
        assert completed == [];
      }
    }

    /** One pass of the receive loop. */
    method Poll(w: World, ghost es: seq<nat>, ghost ds: seq<nat>) returns (ghost a: Answers)
      requires Valid() && w.Valid() && w.ledger.held == multiset{}
      requires Balanced(|w.ledger.inflight|) && enq.Shows(es) && deq.Shows(ds)
      modifies this`selector, this`pktsRx, pktsBurst, collector, ops, w, Counters()
      ensures enq.Shows(es + AcceptedBy(mode, a)) && deq.Shows(ds + CompletedBy(mode, a))
      ensures Valid() && w.Valid() && Possible(a) && a.received <= burst && |a.completed| <= burst
      ensures w.trace == old(w.trace) + BurstEvents(mode, a, old(w.ledger.received), old(pktsRx)) +
                         CompletionEvents(mode, a)
      ensures w.ledger.received == old(w.ledger.received) + a.received
      ensures pktsRx == old(pktsRx) + Prepared(mode, a)
      ensures w.ledger.held == multiset{} && Balanced(|w.ledger.inflight|)
      ensures old(w.ledger.inflight) == multiset{} && !Enqueues(mode, a) ==> w.ledger.inflight == multiset{}
    {
      hide Legal, Replay, Sum, BurstHistogram.Shows;
      assert ds + [] == ds;
      var nbRx;
      nbRx, a := PollBurst(w, es);
      if mode.regex && !(mode.hyperscan && nbRx > 0) {
        var completed, sentLater := PollCompletions(w, ds);
        a := a.(completed := completed, sentLater := sentLater);
      }
    }

    /** The free calls of one drain step: one call per dequeued packet. */
    method FreeEach(w: World, ps: seq<Packet>)
      requires w.Valid() && w.ledger.held == multiset(ps)
      modifies w
      ensures w.Valid() && w.trace == old(w.trace) + Singles(ps)
      ensures w.ledger.held == multiset{} && w.ledger.inflight == old(w.ledger.inflight)
      ensures w.ledger.received == old(w.ledger.received)
    {
      ghost var t, l := w.trace, w.ledger;
      FreedNone(t, l, ps);
      for i := 0 to |ps|
        invariant w.Valid() && Freed(t, l, w.trace, w.ledger, ps, i)
      {
        hide *;
        FreedNext(t, l, w.trace, w.ledger, ps, i);
        w.FreeBulk([ps[i]]);
      }
      FreedAll(t, l, w.trace, w.ledger, ps);
    }

    /** One pass of the drain loop: what was dequeued is freed, then the device is asked again. */
    method DrainStep(w: World, dqd: nat) returns (again: nat)
      requires w.Valid() && dqd <= burst == ops.Length
      requires w.ledger.held == multiset(UserPtrs(ops[..dqd]))
      modifies ops, w
      ensures w.Valid() && again <= burst
      ensures w.trace == old(w.trace) + Singles(old(UserPtrs(ops[..dqd]))) + [Complete(UserPtrs(ops[..again]), burst)]
      ensures w.ledger.held == multiset(UserPtrs(ops[..again])) && w.ledger.received == old(w.ledger.received)
      ensures |w.ledger.inflight| + again == |old(w.ledger.inflight)|
      ensures w.eager && burst > 0 && again == 0 ==> w.ledger.inflight == multiset{}
    {
      hide World.Valid, Apply, Enabled, Singles, UserPtrs;
      FreeEach(w, UserPtrs(ops[..dqd]));
      ghost var l := w.ledger;
      again := w.DequeueBurst(ops, burst);
      EffectOfComplete(l, UserPtrs(ops[..again]), burst);
    }

    /** The loop after the receive loop: dequeue and free until nothing is reported. */
    method Drain(w: World) returns (ghost chunks: seq<seq<Packet>>)
      requires mode.burst == burst == ops.Length && w.Valid() && w.ledger.held == multiset{}
      modifies ops, w
      ensures w.Valid() && w.trace == old(w.trace) + DrainEvents(mode, chunks) + [Complete([], burst)]
      ensures w.ledger.held == multiset{} && w.ledger.received == old(w.ledger.received)
      ensures |w.ledger.inflight| + Total(chunks) == |old(w.ledger.inflight)|
      ensures w.eager && burst > 0 ==> w.ledger.inflight == multiset{}
    {
      chunks := [];
      ghost var ps: seq<Packet> := [];
      ghost var t := w.trace;
      var dqd := DrainStep(w, 0);
      ps := UserPtrs(ops[..dqd]);
      while dqd > 0
        invariant w.Valid() && dqd <= burst && ps == UserPtrs(ops[..dqd])
        invariant w.trace == t + DrainEvents(mode, chunks) + [Complete(ps, burst)]
        invariant w.ledger.held == multiset(ps) && w.ledger.received == old(w.ledger.received)
        invariant |w.ledger.inflight| + dqd + Total(chunks) == |old(w.ledger.inflight)|
        invariant w.eager && burst > 0 && dqd == 0 ==> w.ledger.inflight == multiset{}
        decreases |w.ledger.inflight| + dqd
      {
        hide World.Valid, Apply, Enabled, Singles, DrainEvents, Total;
        ghost var before := w.trace;
        dqd := DrainStep(w, dqd);
        DrainSnoc(mode, chunks, ps);
        RegroupFour(t, DrainEvents(mode, chunks), [Complete(ps, burst)], Singles(ps));
        chunks := chunks + [ps];
        ps := UserPtrs(ops[..dqd]);
      }
      assert ps == [];
    }

    /** The receive loop, stopped from outside after `polls` passes. */
    method Receive(w: World, polls: nat) returns (ghost answers: seq<Answers>)
      requires Valid() && Balanced(0) && pktsRx == 0 && enq.Shows([]) && deq.Shows([])
      requires w.Valid() && w.trace == [] && w.ledger == NO_PACKETS
      modifies this`selector, this`pktsRx, pktsBurst, collector, ops, w, Counters()
      ensures Valid() && w.Valid() && w.ledger.held == multiset{} && Balanced(|w.ledger.inflight|)
      ensures |answers| == polls && IsRun(mode, answers) && w.trace == RunEvents(mode, answers)
      ensures Bounded(mode, answers)
      ensures enq.Shows(Accepted(mode, answers)) && deq.Shows(Completed(mode, answers))
      ensures w.ledger.received == ReceivedTotal(answers)
      ensures !mode.regex || mode.hyperscan ==> w.ledger.inflight == multiset{}
    {
      answers := [];
      for k := 0 to polls
        invariant Valid() && w.Valid() && w.ledger.held == multiset{} && Balanced(|w.ledger.inflight|)
        invariant |answers| == k && IsRun(mode, answers) && w.trace == RunEvents(mode, answers)
        invariant Bounded(mode, answers)
        invariant enq.Shows(Accepted(mode, answers)) && deq.Shows(Completed(mode, answers))
        invariant w.ledger.received == ReceivedTotal(answers) && pktsRx == PreparedTotal(mode, answers)
        invariant !mode.regex || mode.hyperscan ==> w.ledger.inflight == multiset{}
      {
        hide World.Valid, Sum, RunEvents, BurstEvents, CompletionEvents, ReceivedTotal, PreparedTotal;
        hide Accepted, Completed;
        var a := Poll(w, Accepted(mode, answers), Completed(mode, answers));
        RunSnoc(mode, answers, a);
        answers := answers + [a];
      }
    }

    /** What follows the receive loop, and the account at the end. */
    method Finish(w: World) returns (ghost chunks: seq<seq<Packet>>)
      requires mode.burst == burst == ops.Length && w.Valid() && w.ledger.held == multiset{}
      modifies ops, w
      ensures w.Valid() && w.ledger.held == multiset{} && w.ledger.received == old(w.ledger.received)
      ensures w.trace == old(w.trace) + if mode.regex then DrainEvents(mode, chunks) + [Complete([], burst)] else []
      ensures |w.ledger.inflight| + Total(chunks) == |old(w.ledger.inflight)|
      ensures w.eager && burst > 0 && mode.regex ==> w.ledger.inflight == multiset{}
      ensures OneOwnerEach(w.ledger)
      ensures w.ledger.received == |w.ledger.sent| + |w.ledger.freed| + |w.ledger.inflight|
      ensures w.ledger.received == |w.ledger.sent| + |w.ledger.freed| <==> w.ledger.inflight == multiset{}
    {
      chunks := [];
      assert Total(chunks) == 0;
      hide *;
      if mode.regex {
        chunks := Drain(w);
        Regroup(old(w.trace), DrainEvents(mode, chunks), [Complete([], burst)]);
      }
      w.AccountsNow();
    }

    /** `worker_rx_pkts`: the receive loop and then the drain of the device queue. */
    method Run(w: World, polls: nat) returns (ghost answers: seq<Answers>, ghost chunks: seq<seq<Packet>>)
      requires Valid() && Balanced(0) && pktsRx == 0 && enq.Shows([]) && deq.Shows([])
      requires w.Valid() && w.trace == [] && w.ledger == NO_PACKETS
      modifies this`selector, this`pktsRx, pktsBurst, collector, ops, w, Counters()
      ensures w.Valid() && |answers| == polls && IsRun(mode, answers) && Bounded(mode, answers)
      ensures enq.Shows(Accepted(mode, answers)) && deq.Shows(Completed(mode, answers))
      ensures w.trace == RunEvents(mode, answers) +
                         if mode.regex then DrainEvents(mode, chunks) + [Complete([], burst)] else []
      ensures w.ledger.held == multiset{}
      ensures OneOwnerEach(w.ledger) && w.ledger.received == ReceivedTotal(answers)
      ensures w.ledger.received == |w.ledger.sent| + |w.ledger.freed| + |w.ledger.inflight|
      ensures w.ledger.received == |w.ledger.sent| + |w.ledger.freed| <==> w.ledger.inflight == multiset{}
      ensures w.eager && burst > 0 && mode.regex ==> w.ledger.inflight == multiset{}
      ensures !mode.regex || mode.hyperscan ==> w.ledger.inflight == multiset{}
      ensures Balanced(|w.ledger.inflight| + Total(chunks))
    {
      assert mode.burst == burst == ops.Length;
      hide *;
      answers := Receive(w, polls);
      chunks := Finish(w);
    }
  }

  /** What an enqueue leaves to free. */
  lemma RestOfBurst(l: Ledger, ps: seq<Packet>, gs: seq<nat>, k: nat)
    requires k <= |ps| == |gs| && l.held == multiset(ps)
    ensures var l1 := Apply(l, Enqueue(ps[..k], gs[..k], |ps|));
            && |l1.inflight| == |l.inflight| + k && l1.received == l.received
            && (k == |ps| ==> l1.held == multiset{})
            && Enabled(l1, Free(ps[k..]))
            && var l2 := Apply(l1, Free(ps[k..]));
               l2.held == multiset{} && l2.inflight == l1.inflight && l2.received == l.received
  {
    var e := Enqueue(ps[..k], gs[..k], |ps|);
    GiveAwayAll(l, ps, k, e);
    hide Apply, Enabled;
    EffectOfPart(l, ps, gs, k);
    Effect(l, e);
    Effect(Apply(l, e), Free(ps[k..]));
  }

  lemma EffectOfPart(l: Ledger, ps: seq<Packet>, gs: seq<nat>, k: nat)
    requires k <= |ps| == |gs| && l.held == multiset(ps)
    ensures Enabled(l, Enqueue(ps[..k], gs[..k], |ps|))
  {
    SplitBag(ps, k);
  }

  lemma EffectOfReceive(l: Ledger, n: nat)
    requires l.held == multiset{}
    ensures var l' := Apply(l, Receive(n));
            l'.held == multiset(Tokens(l.received, n)) && l'.received == l.received + n && l'.inflight == l.inflight
  {
    Effect(l, Receive(n));
  }

  lemma EffectOfComplete(l: Ledger, ps: seq<Packet>, asked: nat)
    requires l.held == multiset{} && multiset(ps) <= l.inflight && |ps| <= asked
    ensures var l' := Apply(l, Complete(ps, asked));
            l'.held == multiset(ps) && l'.received == l.received && |l'.inflight| == |l.inflight| - |ps|
  {
    Effect(l, Complete(ps, asked));
  }

  lemma RegroupFour<T>(a: seq<T>, b: seq<T>, c: seq<T>, d: seq<T>)
    ensures (a + b + c) + d == a + (b + c + d)
  {
  }

  /** The first i packets of `ps` have been freed one by one. */
  ghost predicate Freed(t: seq<Event>, l: Ledger, t': seq<Event>, l': Ledger, ps: seq<Packet>, i: nat) {
    && i <= |ps| && t' == t + Singles(ps[..i]) && l'.held == multiset(ps[i..])
    && l'.inflight == l.inflight && l'.received == l.received
  }

  lemma FreedNone(t: seq<Event>, l: Ledger, ps: seq<Packet>)
    requires l.held == multiset(ps)
    ensures Freed(t, l, t, l, ps, 0)
  {
    assert ps[0..] == ps;
  }

  lemma FreedNext(t: seq<Event>, l: Ledger, t': seq<Event>, l': Ledger, ps: seq<Packet>, i: nat)
    requires Freed(t, l, t', l', ps, i) && i < |ps|
    ensures Enabled(l', Free([ps[i]])) && Freed(t, l, t' + [Free([ps[i]])], Apply(l', Free([ps[i]])), ps, i + 1)
  {
    hide Apply, Enabled, Singles;
    FreeOne(l', ps[i..]);
    assert ps[i..][0] == ps[i] && ps[i..][1..] == ps[i + 1..];
    assert ps[..i + 1] == ps[..i] + [ps[i]];
    SinglesSnoc(ps[..i], ps[i]);
    Regroup(t, Singles(ps[..i]), [Free([ps[i]])]);
  }

  lemma FreedAll(t: seq<Event>, l: Ledger, t': seq<Event>, l': Ledger, ps: seq<Packet>)
    requires Freed(t, l, t', l', ps, |ps|)
    ensures t' == t + Singles(ps) && l'.held == multiset{} && l'.inflight == l.inflight && l'.received == l.received
  {
    assert ps[..|ps|] == ps && ps[|ps|..] == [];
  }

  lemma FreeOne(l: Ledger, ps: seq<Packet>)
    requires ps != [] && l.held == multiset(ps)
    ensures Enabled(l, Free([ps[0]]))
    ensures var l' := Apply(l, Free([ps[0]]));
            l'.held == multiset(ps[1..]) && l'.received == l.received && l'.inflight == l.inflight
  {
    assert ps == [ps[0]] + ps[1..];
  }

  lemma FreeAll(l: Ledger, ps: seq<Packet>)
    requires l.held == multiset(ps)
    ensures Enabled(l, Free(ps))
    ensures var l' := Apply(l, Free(ps));
            l'.held == multiset{} && l'.received == l.received && l'.inflight == l.inflight
  {
    Effect(l, Free(ps));
  }

  lemma BurstIsCharged(n: nat, burst: nat, size: nat)
    requires size > 0 && n <= burst
    ensures burst % size == 0 ==> n <= burst / size * size
  {
    assert burst == burst / size * size + burst % size;
  }
}
