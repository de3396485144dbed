/**
 Who owns which packet. A ledger is the state of the ownership protocol between a worker, the
 transmit queue, the memory pool and the asynchronous regex device; its events are the calls
 that move packets, with the packets that moved and, where the other side may take fewer, how many it
 was offered or asked for. A packet is named by the order of its reception, so a buffer that the pool
 hands out again is a new packet.
 */
module PacketLedger {
  type Packet = nat

  datatype Ledger = Ledger(received: nat, held: multiset<Packet>, inflight: multiset<Packet>,
                           sent: multiset<Packet>, freed: multiset<Packet>)

  datatype Event =
    | Receive(n: nat)
    | Enqueue(ps: seq<Packet>, groups: seq<nat>, offered: nat)
    | Complete(ps: seq<Packet>, asked: nat)
    | Transmit(ps: seq<Packet>, offered: nat)
    | Free(ps: seq<Packet>)

  const NO_PACKETS := Ledger(0, multiset{}, multiset{}, multiset{}, multiset{})

  function Tokens(first: nat, n: nat): (ps: seq<Packet>)
    ensures |ps| == n
  {
    seq(n, i => first + i)
  }

  /** A call is allowed when its caller owns what it gives away. */
  predicate Enabled(l: Ledger, e: Event) {
    match e
    case Receive(_) => true
    case Enqueue(ps, groups, offered) => |groups| == |ps| <= offered && multiset(ps) <= l.held
    case Complete(ps, asked) => |ps| <= asked && multiset(ps) <= l.inflight
    case Transmit(ps, offered) => |ps| <= offered && multiset(ps) <= l.held
    case Free(ps) => multiset(ps) <= l.held
  }

  function Apply(l: Ledger, e: Event): Ledger {
    match e
    case Receive(n) => l.(received := l.received + n, held := l.held + multiset(Tokens(l.received, n)))
    case Enqueue(ps, _, _) => l.(held := l.held - multiset(ps), inflight := l.inflight + multiset(ps))
    case Complete(ps, _) => l.(inflight := l.inflight - multiset(ps), held := l.held + multiset(ps))
    case Transmit(ps, _) => l.(held := l.held - multiset(ps), sent := l.sent + multiset(ps))
    case Free(ps) => l.(held := l.held - multiset(ps), freed := l.freed + multiset(ps))
  }

  function Replay(trace: seq<Event>): Ledger {
    if trace == [] then NO_PACKETS else Apply(Replay(trace[..|trace| - 1]), trace[|trace| - 1])
  }

  predicate Legal(trace: seq<Event>) {
    trace == [] ||
    (Legal(trace[..|trace| - 1]) && Enabled(Replay(trace[..|trace| - 1]), trace[|trace| - 1]))
  }

  // ----- where the packets are, read off the trace -----

  datatype Kind = Enqueuing | Completing | Transmitting | Freeing

  predicate IsKind(e: Event, kind: Kind) {
    match kind
    case Enqueuing => e.Enqueue?
    case Completing => e.Complete?
    case Transmitting => e.Transmit?
    case Freeing => e.Free?
  }

  /** How often the events of one kind moved a packet. */
  function Times(trace: seq<Event>, kind: Kind, p: Packet): nat {
    if trace == [] then 0
    else
      var e := trace[|trace| - 1];
      Times(trace[..|trace| - 1], kind, p) + if IsKind(e, kind) then multiset(e.ps)[p] else 0
  }

  function Received(trace: seq<Event>): nat {
    if trace == [] then 0
    else
      var e := trace[|trace| - 1];
      Received(trace[..|trace| - 1]) + if e.Receive? then e.n else 0
  }

  /** The ledger's places hold what the trace says: a transmitted packet counts as sent and no other
      does, a freed one as freed, and in flight is what was enqueued and not completed. */
  lemma {:induction false} PlacesAre(trace: seq<Event>, p: Packet)
    requires Legal(trace)
    ensures var l := Replay(trace);
            && l.received == Received(trace)
            && l.sent[p] == Times(trace, Transmitting, p) && l.freed[p] == Times(trace, Freeing, p)
            && l.inflight[p] + Times(trace, Completing, p) == Times(trace, Enqueuing, p)
  {
    if trace != [] {
      PlacesAre(trace[..|trace| - 1], p);
    }
  }

  // ----- what every legal trace keeps -----

  lemma {:induction false} TokensOnce(first: nat, n: nat, p: Packet)
    ensures multiset(Tokens(first, n))[p] == if first <= p < first + n then 1 else 0
  {
    if n == 0 {
      assert Tokens(first, n) == [];
    } else {
      TokensOnce(first, n - 1, p);
      assert Tokens(first, n) == Tokens(first, n - 1) + [first + n - 1];
    }
  }

  /** Every received packet has exactly one owner, and no other packet has any. */
  ghost predicate OneOwnerEach(l: Ledger) {
    forall p: Packet :: l.held[p] + l.inflight[p] + l.sent[p] + l.freed[p] == if p < l.received then 1 else 0
  }

  lemma OneOwnerStep(l: Ledger, e: Event)
    requires OneOwnerEach(l) && Enabled(l, e)
    ensures OneOwnerEach(Apply(l, e))
  {
    var l' := Apply(l, e);
    forall p: Packet
      ensures l'.held[p] + l'.inflight[p] + l'.sent[p] + l'.freed[p] == if p < l'.received then 1 else 0
    {
      assert l.held[p] + l.inflight[p] + l.sent[p] + l.freed[p] == if p < l.received then 1 else 0;
      if e.Receive? {
        TokensOnce(l.received, e.n, p);
      }
    }
  }

  /** In every reachable state each received packet is in exactly one of: held by the worker, in
      flight in the device, transmitted, freed. */
  lemma {:induction false} OneOwner(trace: seq<Event>)
    requires Legal(trace)
    ensures OneOwnerEach(Replay(trace))
  {
    if trace != [] {
      OneOwner(trace[..|trace| - 1]);
      OneOwnerStep(Replay(trace[..|trace| - 1]), trace[|trace| - 1]);
    }
  }

  /** The four places together hold as many packets as were received. */
  lemma {:induction false} Conservation(trace: seq<Event>)
    requires Legal(trace)
    ensures var l := Replay(trace); |l.held| + |l.inflight| + |l.sent| + |l.freed| == l.received
  {
    if trace != [] {
      Conservation(trace[..|trace| - 1]);
      var l, e := Replay(trace[..|trace| - 1]), trace[|trace| - 1];
      if !e.Receive? {
        assert |multiset(e.ps)| == |e.ps|;
      }
    }
  }

  /** `e` takes the packet out of the system for good. */
  predicate Disposes(e: Event, p: Packet) {
    (e.Transmit? || e.Free?) && p in e.ps
  }

  predicate Touches(e: Event, p: Packet) {
    !e.Receive? && p in e.ps
  }

  lemma DisposedStep(l: Ledger, e: Event, p: Packet)
    requires p in l.sent + l.freed
    ensures p in Apply(l, e).sent + Apply(l, e).freed
  {
  }

  lemma {:induction false} DisposedStays(trace: seq<Event>, i: nat, p: Packet)
    requires Legal(trace) && i < |trace| && Disposes(trace[i], p)
    ensures p in Replay(trace).sent + Replay(trace).freed
  {
    var prefix, e := trace[..|trace| - 1], trace[|trace| - 1];
    if i < |prefix| {
      DisposedStays(prefix, i, p);
      DisposedStep(Replay(prefix), e, p);
    } else {
      assert p in multiset(e.ps);
    }
  }

  /** A packet that was sent or freed is never touched again: not sent twice, not freed twice,
      not freed after sending, not offered to the device. */
  lemma DisposedOnce(trace: seq<Event>, i: nat, j: nat, p: Packet)
    requires Legal(trace) && i < j < |trace|
    requires Disposes(trace[i], p)
    ensures !Touches(trace[j], p)
  {
    LegalPrefix(trace, j);
    LegalPrefix(trace, j + 1);
    var before := trace[..j];
    assert trace[..j + 1][..j] == before;
    assert before[i] == trace[i];
    DisposedStays(before, i, p);
    OneOwner(before);
    var l := Replay(before);
    assert l.held[p] + l.inflight[p] + l.sent[p] + l.freed[p] <= 1;
    assert l.held[p] == 0 && l.inflight[p] == 0;
    var e := trace[j];
    assert Enabled(l, e);
    assert !e.Receive? ==> (p in e.ps <==> p in multiset(e.ps));
  }

  lemma {:induction false} LegalPrefix(trace: seq<Event>, k: nat)
    requires Legal(trace) && k <= |trace|
    ensures Legal(trace[..k])
  {
    if k == |trace| {
      assert trace[..k] == trace;
    } else {
      LegalPrefix(trace[..|trace| - 1], k);
      assert trace[..|trace| - 1][..k] == trace[..k];
    }
  }

  lemma LegalSnoc(trace: seq<Event>, e: Event)
    ensures Replay(trace + [e]) == Apply(Replay(trace), e)
    ensures Legal(trace + [e]) <==> Legal(trace) && Enabled(Replay(trace), e)
  {
    assert (trace + [e])[..|trace|] == trace;
  }

  lemma SplitBag(s: seq<Packet>, k: nat)
    requires k <= |s|
    ensures multiset(s) == multiset(s[..k]) + multiset(s[k..])
  {
    assert s == s[..k] + s[k..];
  }

  /** Giving away a prefix of what is held and then the rest leaves nothing held. */
  lemma GiveAwayAll(l: Ledger, ps: seq<Packet>, k: nat, e: Event)
    requires k <= |ps| && l.held == multiset(ps)
    requires (e.Transmit? || (e.Enqueue? && |e.groups| == k)) && e.ps == ps[..k] && e.offered == |ps|
    ensures Enabled(l, e) && Enabled(Apply(l, e), Free(ps[k..]))
    ensures Apply(Apply(l, e), Free(ps[k..])).held == multiset{}
    ensures k == |ps| ==> Apply(l, e).held == multiset{}
  {
    SplitBag(ps, k);
    if k == |ps| {
      assert ps[..k] == ps;
    }
  }

  /** What an event does to the number of packets received and in flight. */
  lemma Effect(l: Ledger, e: Event)
    requires Enabled(l, e)
    ensures Apply(l, e).received == l.received + if e.Receive? then e.n else 0
    ensures |Apply(l, e).inflight| == |l.inflight| + if e.Enqueue? then |e.ps| else if e.Complete? then -|e.ps| else 0
    ensures !e.Enqueue? && !e.Complete? ==> Apply(l, e).inflight == l.inflight
    ensures l.held == multiset{} && e.Receive? ==> Apply(l, e).held == multiset(Tokens(l.received, e.n))
    ensures l.held == multiset{} && e.Complete? ==> Apply(l, e).held == multiset(e.ps)
    ensures e.Free? && l.held == multiset(e.ps) ==> Apply(l, e).held == multiset{}
  {
    if !e.Receive? {
      assert |multiset(e.ps)| == |e.ps|;
    }
  }
}
