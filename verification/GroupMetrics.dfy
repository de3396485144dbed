/**
 `compute_metrics` of et-analysis/met7.py: memberships of signatures in groups, the overlap of all
 pairs of groups, and the histogram of multiplicities. The nested pair loop counts the same thing
 twice over that the multiplicities count once.
 */
module GroupMetrics {
  import opened Arith
  import opened Text

  type Group = seq<nat>

  function SetOf(g: Group): set<nat> {
    set x | x in g
  }

  /** In how many groups a signature occurs. */
  function Mult(groups: seq<Group>, x: nat): nat {
    if groups == [] then 0
    else Mult(groups[..|groups| - 1], x) + if x in groups[|groups| - 1] then 1 else 0
  }

  function IndexSet(groups: seq<Group>, x: nat): set<nat> {
    set i | 0 <= i < |groups| && x in groups[i]
  }

  /** u lists the signatures of the groups, each once. */
  ghost predicate Lists(u: seq<nat>, groups: seq<Group>) {
    Distinct(u) && forall x :: x in u <==> exists i :: 0 <= i < |groups| && x in groups[i]
  }

  // ----- memberships -----

  lemma {:induction false} MultIsCardinality(groups: seq<Group>, x: nat)
    ensures |IndexSet(groups, x)| == Mult(groups, x)
  {
    if groups == [] {
      assert IndexSet(groups, x) == {};
    } else {
      var k := |groups| - 1;
      var init := groups[..k];
      MultIsCardinality(init, x);
      assert IndexSet(groups, x) == IndexSet(init, x) + if x in groups[k] then {k} else {};
    }
  }

  /** The membership dictionary, with its keys in order of insertion, after the groups `done` and
      the signatures `seen` of the next one. */
  ghost predicate Collected(done: seq<Group>, seen: seq<nat>, keys: seq<nat>, members: map<nat, set<nat>>) {
    && Distinct(keys)
    && (forall x :: x in members <==> x in keys)
    && (forall x :: x in keys <==> IndexSet(done, x) != {} || x in seen)
    && (forall x :: x in keys ==> members[x] == IndexSet(done, x) + if x in seen then {|done|} else {})
  }

  /** The first loop of `compute_metrics`. */
  method Memberships(groups: seq<Group>) returns (keys: seq<nat>, members: map<nat, set<nat>>)
    ensures Lists(keys, groups) && forall x :: x in members <==> x in keys
    ensures forall x :: x in keys ==> members[x] == IndexSet(groups, x) && |members[x]| == Mult(groups, x) > 0
  {
    keys, members := [], map[];
    assert groups[..0] == [] && Collected([], [], keys, members);
    hide Collected, IndexSet;
    for gi := 0 to |groups|
      invariant Collected(groups[..gi], [], keys, members)
    {
      var sigs := groups[gi];
      assert sigs[..0] == [];
      for k := 0 to |sigs|
        invariant Collected(groups[..gi], sigs[..k], keys, members)
      {
        keys, members := AddMember(groups[..gi], gi, sigs[..k], sigs[k], keys, members);
        assert sigs[..k + 1] == sigs[..k] + [sigs[k]];
      }
      assert sigs[..|sigs|] == sigs;
      NextGroup(groups[..gi], sigs, keys, members);
      assert groups[..gi + 1] == groups[..gi] + [sigs];
    }
    assert groups[..|groups|] == groups;
    AllCollected(groups, keys, members);
  }

  lemma AllCollected(groups: seq<Group>, keys: seq<nat>, members: map<nat, set<nat>>)
    requires Collected(groups, [], keys, members)
    ensures Lists(keys, groups) && forall x :: x in members <==> x in keys
    ensures forall x :: x in keys ==> members[x] == IndexSet(groups, x) && |members[x]| == Mult(groups, x) > 0
  {
    hide IndexSet, Mult;
    forall x: nat
      ensures IndexSet(groups, x) != {} <==> exists i :: 0 <= i < |groups| && x in groups[i]
      ensures |IndexSet(groups, x)| == Mult(groups, x)
      ensures IndexSet(groups, x) != {} ==> Mult(groups, x) > 0
    {
      IndexSetFacts(groups, x);
    }
  }

  lemma IndexSetFacts(groups: seq<Group>, x: nat)
    ensures IndexSet(groups, x) != {} <==> exists i :: 0 <= i < |groups| && x in groups[i]
    ensures |IndexSet(groups, x)| == Mult(groups, x)
    ensures IndexSet(groups, x) != {} ==> Mult(groups, x) > 0
  {
    MultIsCardinality(groups, x);
    if i :| 0 <= i < |groups| && x in groups[i] {
      assert i in IndexSet(groups, x);
    }
  }

  method AddMember(ghost done: seq<Group>, gi: nat, ghost seen: seq<nat>, sig: nat,
                   keys: seq<nat>, members: map<nat, set<nat>>)
    returns (keys': seq<nat>, members': map<nat, set<nat>>)
    requires gi == |done| && Collected(done, seen, keys, members)
    ensures Collected(done, seen + [sig], keys', members')
  {
    hide IndexSet;
    keys', members' := keys, members;
    if sig !in members {
      keys', members' := keys + [sig], members[sig := {}];
    }
    members' := members'[sig := members'[sig] + {gi}];
  }

  lemma NextGroup(done: seq<Group>, g: Group, keys: seq<nat>, members: map<nat, set<nat>>)
    requires Collected(done, g, keys, members)
    ensures Collected(done + [g], [], keys, members)
  {
    forall x
      ensures IndexSet(done + [g], x) == IndexSet(done, x) + if x in g then {|done|} else {}
    {
      OneMoreGroup(done, g, x);
    }
    hide IndexSet;
  }

  lemma OneMoreGroup(done: seq<Group>, g: Group, x: nat)
    ensures IndexSet(done + [g], x) == IndexSet(done, x) + if x in g then {|done|} else {}
  {
    var all := done + [g];
    assert forall i :: 0 <= i < |done| ==> all[i] == done[i];
    assert all[|done|] == g;
  }

  // ----- sums over the signatures -----

  function Pairs(m: nat): nat {
    m * (m - 1) / 2
  }

  /** The membership counts, one per signature. */
  function Mults(groups: seq<Group>, u: seq<nat>): (ms: seq<nat>)
    ensures |ms| == |u|
  {
    seq(|u|, k requires 0 <= k < |u| => Mult(groups, u[k]))
  }

  function SumPairs(groups: seq<Group>, u: seq<nat>): nat {
    if u == [] then 0 else SumPairs(groups, u[..|u| - 1]) + Pairs(Mult(groups, u[|u| - 1]))
  }

  function SumMults(groups: seq<Group>, u: seq<nat>): nat {
    if u == [] then 0 else SumMults(groups, u[..|u| - 1]) + Mult(groups, u[|u| - 1])
  }

  /** The membership counts of the signatures of one group. */
  function SumMultsIn(groups: seq<Group>, u: seq<nat>, g: Group): nat {
    if u == [] then 0
    else SumMultsIn(groups, u[..|u| - 1], g) + if u[|u| - 1] in g then Mult(groups, u[|u| - 1]) else 0
  }

  function CountIn(u: seq<nat>, s: set<nat>): nat {
    if u == [] then 0 else CountIn(u[..|u| - 1], s) + if u[|u| - 1] in s then 1 else 0
  }

  lemma {:induction false} CountIsCardinality(u: seq<nat>, s: set<nat>)
    requires Distinct(u) && forall x :: x in s ==> x in u
    ensures CountIn(u, s) == |s|
  {
    if u == [] {
      assert s == {};
    } else {
      var init, last := u[..|u| - 1], u[|u| - 1];
      assert forall x :: x in u ==> x in init || x == last;
      assert last !in init;
      CountIsCardinality(init, s - {last});
      CountSame(init, s, s - {last});
    }
  }

  lemma {:induction false} CountSame(u: seq<nat>, s: set<nat>, t: set<nat>)
    requires forall x :: x in u ==> (x in s <==> x in t)
    ensures CountIn(u, s) == CountIn(u, t)
  {
    if u != [] {
      assert u[|u| - 1] in u;
      CountSame(u[..|u| - 1], s, t);
    }
  }

  // ----- the pair loop -----

  /** The overlaps of one group with several. */
  function Cross(groups: seq<Group>, g: Group): nat {
    if groups == [] then 0 else Cross(groups[..|groups| - 1], g) + |SetOf(g) * SetOf(groups[|groups| - 1])|
  }

  /** The overlaps of all pairs, row by row as the loop runs. */
  function PairOverlaps(groups: seq<Group>): nat {
    if groups == [] then 0 else Cross(groups[1..], groups[0]) + PairOverlaps(groups[1..])
  }

  lemma {:induction false} SumMultsInStep(groups: seq<Group>, h: Group, u: seq<nat>, g: Group)
    ensures SumMultsIn(groups + [h], u, g) == SumMultsIn(groups, u, g) + CountIn(u, SetOf(g) * SetOf(h))
  {
    if u != [] {
      SumMultsInStep(groups, h, u[..|u| - 1], g);
      assert (groups + [h])[..|groups|] == groups;
    }
  }

  lemma {:induction false} CrossCount(groups: seq<Group>, u: seq<nat>, g: Group)
    requires Distinct(u) && forall x :: x in g ==> x in u
    ensures Cross(groups, g) == SumMultsIn(groups, u, g)
  {
    if groups == [] {
      NoGroups(u, g);
    } else {
      var init, last := groups[..|groups| - 1], groups[|groups| - 1];
      CrossCount(init, u, g);
      SumMultsInStep(init, last, u, g);
      assert init + [last] == groups;
      CountIsCardinality(u, SetOf(g) * SetOf(last));
    }
  }

  lemma {:induction false} NoGroups(u: seq<nat>, g: Group)
    ensures SumMultsIn([], u, g) == 0 && SumPairs([], u) == 0 && SumMults([], u) == 0
  {
    if u != [] {
      NoGroups(u[..|u| - 1], g);
    }
  }

  lemma {:induction false} MultFront(g: Group, groups: seq<Group>, x: nat)
    ensures Mult([g] + groups, x) == Mult(groups, x) + if x in g then 1 else 0
  {
    if groups == [] {
      assert [g] + groups == [g] && [g][..0] == [];
    } else {
      var k := |groups| - 1;
      MultFront(g, groups[..k], x);
      assert ([g] + groups)[..|groups|] == [g] + groups[..k];
    }
  }

  lemma PairsStep(m: nat)
    ensures Pairs(m + 1) == Pairs(m) + m
  {
    assert (m + 1) * m == m * (m - 1) + 2 * m;
  }

  /** One more group turns m memberships into m + 1 and adds m pairs for each of its signatures. */
  lemma {:induction false} SumPairsFront(g: Group, groups: seq<Group>, u: seq<nat>)
    ensures SumPairs([g] + groups, u) == SumPairs(groups, u) + SumMultsIn(groups, u, g)
  {
    hide Pairs;
    if u != [] {
      var x := u[|u| - 1];
      SumPairsFront(g, groups, u[..|u| - 1]);
      MultFront(g, groups, x);
      PairsStep(Mult(groups, x));
    }
  }

  /** Double counting: the overlaps of all pairs of groups, added up, are the pairs of groups that
      share a signature, added up over the signatures. */
  lemma {:induction false} DoubleCounting(groups: seq<Group>, u: seq<nat>)
    requires Distinct(u) && forall i, x :: 0 <= i < |groups| && x in groups[i] ==> x in u
    ensures PairOverlaps(groups) == SumPairs(groups, u)
  {
    if groups == [] {
      NoGroups(u, []);
    } else {
      var tail := groups[1..];
      assert forall i :: 0 <= i < |tail| ==> tail[i] == groups[i + 1];
      DoubleCounting(tail, u);
      CrossCount(tail, u, groups[0]);
      SumPairsFront(groups[0], tail, u);
      assert [groups[0]] + tail == groups;
    }
  }

  function TotalSizes(groups: seq<Group>): nat {
    if groups == [] then 0 else TotalSizes(groups[..|groups| - 1]) + |SetOf(groups[|groups| - 1])|
  }

  lemma {:induction false} SumMultsStep(groups: seq<Group>, h: Group, u: seq<nat>)
    ensures SumMults(groups + [h], u) == SumMults(groups, u) + CountIn(u, SetOf(h))
  {
    if u != [] {
      SumMultsStep(groups, h, u[..|u| - 1]);
      assert (groups + [h])[..|groups|] == groups;
    }
  }

  /** Memberships counted per signature are set sizes counted per group. */
  lemma {:induction false} MembershipsAreSizes(groups: seq<Group>, u: seq<nat>)
    requires Distinct(u) && forall i, x :: 0 <= i < |groups| && x in groups[i] ==> x in u
    ensures SumMults(groups, u) == TotalSizes(groups)
  {
    if groups == [] {
      NoGroups(u, []);
    } else {
      var init, last := groups[..|groups| - 1], groups[|groups| - 1];
      assert forall i :: 0 <= i < |init| ==> init[i] == groups[i];
      MembershipsAreSizes(init, u);
      SumMultsStep(init, last, u);
      assert init + [last] == groups;
      CountIsCardinality(u, SetOf(last));
    }
  }

  lemma {:induction false} SumOfMults(groups: seq<Group>, u: seq<nat>)
    ensures Sum(Mults(groups, u)) == SumMults(groups, u)
  {
    if u != [] {
      SumOfMults(groups, u[..|u| - 1]);
      SumSnoc(Mults(groups, u[..|u| - 1]), Mult(groups, u[|u| - 1]));
      assert Mults(groups, u) == Mults(groups, u[..|u| - 1]) + [Mult(groups, u[|u| - 1])];
    }
  }

  // ----- the histogram -----

  function CountEq(ms: seq<nat>, k: nat): nat {
    if ms == [] then 0 else CountEq(ms[..|ms| - 1], k) + if ms[|ms| - 1] == k then 1 else 0
  }

  /** Python's `Counter`. */
  ghost predicate Counts(hist: map<nat, nat>, ms: seq<nat>) {
    (forall k :: k in hist <==> k in ms) && forall k :: k in hist ==> hist[k] == CountEq(ms, k)
  }

  method Counter(ms: seq<nat>) returns (hist: map<nat, nat>)
    ensures Counts(hist, ms)
  {
    hist := map[];
    for i := 0 to |ms|
      invariant Counts(hist, ms[..i])
    {
      var m := ms[i];
      assert ms[..i + 1][..i] == ms[..i] && ms[..i + 1] == ms[..i] + [m];
      AbsentIsZero(ms[..i]);
      hist := hist[m := (if m in hist then hist[m] else 0) + 1];
    }
    assert ms[..|ms|] == ms;
  }

  lemma {:induction false} AbsentIsZero(ms: seq<nat>)
    ensures forall k :: k !in ms ==> CountEq(ms, k) == 0
  {
    if ms != [] {
      AbsentIsZero(ms[..|ms| - 1]);
      assert ms[|ms| - 1] in ms;
    }
  }

  /** The histogram entries for 0..n added up, plainly and weighted by the multiplicity. */
  function HistTotal(hist: map<nat, nat>, n: nat): nat {
    (if n in hist then hist[n] else 0) + if n == 0 then 0 else HistTotal(hist, n - 1)
  }

  function HistWeighted(hist: map<nat, nat>, n: nat): nat {
    (if n in hist then n * hist[n] else 0) + if n == 0 then 0 else HistWeighted(hist, n - 1)
  }

  function CountUpTo(ms: seq<nat>, n: nat): nat {
    CountEq(ms, n) + if n == 0 then 0 else CountUpTo(ms, n - 1)
  }

  function WeightUpTo(ms: seq<nat>, n: nat): nat {
    n * CountEq(ms, n) + if n == 0 then 0 else WeightUpTo(ms, n - 1)
  }

  lemma {:induction false} UpToStep(ms: seq<nat>, m: nat, n: nat)
    ensures CountUpTo(ms + [m], n) == CountUpTo(ms, n) + if m <= n then 1 else 0
    ensures WeightUpTo(ms + [m], n) == WeightUpTo(ms, n) + if m <= n then m else 0
  {
    assert (ms + [m])[..|ms|] == ms;
    var c := CountEq(ms, n);
    assert n * (c + 1) == n * c + n;
    if n > 0 {
      UpToStep(ms, m, n - 1);
    }
  }

  lemma {:induction false} UpToNone(n: nat)
    ensures CountUpTo([], n) == 0 && WeightUpTo([], n) == 0
  {
    if n > 0 {
      UpToNone(n - 1);
    }
  }

  lemma {:induction false} UpToAll(ms: seq<nat>, n: nat)
    requires forall i :: 0 <= i < |ms| ==> ms[i] <= n
    ensures CountUpTo(ms, n) == |ms| && WeightUpTo(ms, n) == Sum(ms)
  {
    if ms == [] {
      UpToNone(n);
    } else {
      var init, last := ms[..|ms| - 1], ms[|ms| - 1];
      UpToAll(init, n);
      UpToStep(init, last, n);
      SumSnoc(init, last);
      assert init + [last] == ms;
    }
  }

  lemma {:induction false} HistIsUpTo(hist: map<nat, nat>, ms: seq<nat>, n: nat)
    requires Counts(hist, ms)
    ensures HistTotal(hist, n) == CountUpTo(ms, n) && HistWeighted(hist, n) == WeightUpTo(ms, n)
  {
    AbsentIsZero(ms);
    if n > 0 {
      HistIsUpTo(hist, ms, n - 1);
    }
  }

  lemma {:induction false} MultBound(groups: seq<Group>, x: nat)
    ensures Mult(groups, x) <= |groups|
  {
    if groups != [] {
      MultBound(groups[..|groups| - 1], x);
    }
  }

  /** The multiplicity histogram accounts for every signature once and for every membership: its
      entries sum to the number of signatures and, weighted, to the sizes of the groups. */
  lemma HistogramAccounts(groups: seq<Group>, u: seq<nat>, hist: map<nat, nat>)
    requires Lists(u, groups) && Counts(hist, Mults(groups, u))
    ensures HistTotal(hist, |groups|) == |u|
    ensures HistWeighted(hist, |groups|) == SumMults(groups, u) == TotalSizes(groups)
  {
    var ms := Mults(groups, u);
    forall i | 0 <= i < |ms|
      ensures ms[i] <= |groups|
    {
      MultBound(groups, u[i]);
    }
    UpToAll(ms, |groups|);
    HistIsUpTo(hist, ms, |groups|);
    SumOfMults(groups, u);
    MembershipsAreSizes(groups, u);
  }

  // ----- the metrics -----

  /** Averages as fractions; the entropy is not part of this model. */
  datatype Metrics = Metrics(avgSghPerRule: real, uniqueCoverage: real, avgOverlap: real, histogram: map<nat, nat>)

  /** One row of the pair loops: group i against every later one. */
  method OverlapRow(groups: seq<Group>, i: nat) returns (overlaps: nat, pairs: nat)
    requires i < |groups|
    ensures overlaps == Cross(groups[i + 1..], groups[i]) && pairs == |groups| - i - 1
  {
    overlaps, pairs := 0, 0;
    var n := |groups|;
    assert groups[i + 1..i + 1] == [];
    for j := i + 1 to n
      invariant overlaps == Cross(groups[i + 1..j], groups[i]) && pairs == j - i - 1
    {
      assert groups[i + 1..j + 1][..j - i - 1] == groups[i + 1..j];
      overlaps := overlaps + |SetOf(groups[i]) * SetOf(groups[j])|;
      pairs := pairs + 1;
    }
    assert groups[i + 1..n] == groups[i + 1..];
  }

  /** The pair loops of `compute_metrics`. */
  method OverlapLoop(groups: seq<Group>) returns (overlapSum: nat, countPairs: nat)
    ensures overlapSum == PairOverlaps(groups) && countPairs == Pairs(|groups|)
  {
    overlapSum, countPairs := 0, 0;
    var n := |groups|;
    assert groups[0..] == groups;
    for i := 0 to n
      invariant overlapSum + PairOverlaps(groups[i..]) == PairOverlaps(groups)
      invariant countPairs + Pairs(n - i) == Pairs(n)
    {
      hide Pairs;
      assert groups[i..][0] == groups[i] && groups[i..][1..] == groups[i + 1..];
      PairsStep(n - i - 1);
      var overlaps, pairs := OverlapRow(groups, i);
      overlapSum, countPairs := overlapSum + overlaps, countPairs + pairs;
    }
  }

  /** `compute_metrics`, and the signatures it found. */
  method ComputeMetrics(groups: seq<Group>) returns (r: Metrics, rules: seq<nat>)
    ensures Lists(rules, groups)
    ensures r.avgSghPerRule == if rules == [] then 0.0 else TotalSizes(groups) as real / |rules| as real
    ensures r.uniqueCoverage == if rules == [] then 0.0 else CountEq(Mults(groups, rules), 1) as real / |rules| as real
    ensures r.avgOverlap == if |groups| <= 1 then 0.0 else SumPairs(groups, rules) as real / Pairs(|groups|) as real
    ensures Counts(r.histogram, Mults(groups, rules))
  {
    var members;
    rules, members := Memberships(groups);
    var multiplicities := seq(|rules|, k requires 0 <= k < |rules| => |members[rules[k]]|);
    assert multiplicities == Mults(groups, rules);
    SumOfMults(groups, rules);
    MembershipsAreSizes(groups, rules);
    var total := Sum(multiplicities);
    var unique := |rules|;
    var avg := if unique > 0 then total as real / unique as real else 0.0;
    var coverage := if unique > 0 then CountEq(multiplicities, 1) as real / unique as real else 0.0;
    var overlap := 0.0;
    if |groups| > 1 {
      var overlapSum, countPairs := OverlapLoop(groups);
      DoubleCounting(groups, rules);
      SomePairs(|groups|);
      overlap := overlapSum as real / countPairs as real;
    }
    var hist := Counter(multiplicities);
    r := Metrics(avg, coverage, overlap, hist);
  }

  lemma SomePairs(n: nat)
    requires n > 1
    ensures Pairs(n) > 0
  {
    assert n * (n - 1) >= 2;
  }
}
