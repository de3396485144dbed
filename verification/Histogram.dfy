/**
 The burst-size histogram of regex-test.c: which bucket a burst lands in, when no burst is
 lost, and how the per-worker histograms add up.
 */
module Histogram {
  import opened Arith

  lemma SumUpdate(a: seq<nat>, k: nat, x: nat)
    requires k < |a|
    ensures Sum(a[k := a[k] + x]) == Sum(a) + x
  {
    var b := a[k := a[k] + x];
    assert a == a[..k] + ([a[k]] + a[k + 1..]);
    assert b == a[..k] + ([a[k] + x] + a[k + 1..]);
    SumAppend(a[..k], [a[k]] + a[k + 1..]);
    SumAppend(a[..k], [a[k] + x] + a[k + 1..]);
  }

  /** The bucket of a burst of n packets: max(1, ceil(n / size)) - 1. */
  function Bucket(n: nat, size: nat): nat
    requires size > 0
  {
    if n == 0 then 0 else CeilDiv(n, size) - 1
  }

  /** Bucket i is the first whose bound (i + 1) * size reaches n. */
  lemma BucketIsFirst(n: nat, size: nat, i: nat)
    requires size > 0
    ensures Bucket(n, size) == i <==> n <= (i + 1) * size && (i > 0 ==> i * size < n)
  {
    if n > 0 {
      var c := CeilDiv(n, size);
      assert c * size - size < n <= c * size by {
        assert n + size - 1 == c * size + (n + size - 1) % size;
      }
      if n <= (i + 1) * size && (i > 0 ==> i * size < n) {
        assert (c - 1) * size < (i + 1) * size;
        MulLess(c - 1, i + 1, size);
        if i > 0 {
          MulLess(i, c, size);
        }
      }
    }
  }

  lemma MulLess(a: int, b: int, size: nat)
    requires a * size < b * size
    ensures a < b
  {
    MulMonotone(b, a, size);
  }

  // ----- what a histogram shows of a list of bursts -----

  /** The sizes that belong into bucket b: above its lower bound and up to its upper one; the first
      bucket takes empty bursts too. */
  predicate InBucket(n: nat, b: nat, size: nat) {
    (b == 0 || b * size < n) && n <= (b + 1) * size
  }

  /** How many of some bursts belong into bucket b, */
  function BurstsIn(ns: seq<nat>, b: nat, size: nat): nat {
    if ns == [] then 0 else BurstsIn(ns[..|ns| - 1], b, size) + if InBucket(ns[|ns| - 1], b, size) then 1 else 0
  }

  /** and how many packets they hold. */
  function PacketsIn(ns: seq<nat>, b: nat, size: nat): nat {
    if ns == [] then 0
    else PacketsIn(ns[..|ns| - 1], b, size) + if InBucket(ns[|ns| - 1], b, size) then ns[|ns| - 1] else 0
  }

  lemma InSnoc(ns: seq<nat>, n: nat, b: nat, size: nat)
    ensures BurstsIn(ns + [n], b, size) == BurstsIn(ns, b, size) + if InBucket(n, b, size) then 1 else 0
    ensures PacketsIn(ns + [n], b, size) == PacketsIn(ns, b, size) + if InBucket(n, b, size) then n else 0
  {
    assert (ns + [n])[..|ns|] == ns;
  }

  lemma {:induction false} InAppend(a: seq<nat>, c: seq<nat>, b: nat, size: nat)
    ensures BurstsIn(a + c, b, size) == BurstsIn(a, b, size) + BurstsIn(c, b, size)
    ensures PacketsIn(a + c, b, size) == PacketsIn(a, b, size) + PacketsIn(c, b, size)
  {
    if c == [] {
      assert a + c == a;
    } else {
      var m := |c| - 1;
      InAppend(a, c[..m], b, size);
      InSnoc(a + c[..m], c[m], b, size);
      assert a + c == (a + c[..m]) + [c[m]];
    }
  }

  /** Two rows of counters, one per bucket, show some bursts. */
  ghost predicate Tally(bursts: seq<nat>, packets: seq<nat>, ns: seq<nat>, size: nat) {
    && |bursts| == |packets|
    && forall b :: 0 <= b < |bursts| ==> bursts[b] == BurstsIn(ns, b, size) && packets[b] == PacketsIn(ns, b, size)
  }

  /** One more burst: its bucket is charged if there is one. */
  lemma TallyMore(bursts: seq<nat>, packets: seq<nat>, bursts': seq<nat>, packets': seq<nat>,
                  ns: seq<nat>, n: nat, size: nat)
    requires size > 0 && Tally(bursts, packets, ns, size)
    requires if Bucket(n, size) < |packets|
             then bursts' == bursts[Bucket(n, size) := bursts[Bucket(n, size)] + 1] &&
                  packets' == packets[Bucket(n, size) := packets[Bucket(n, size)] + n]
             else bursts' == bursts && packets' == packets
    ensures Tally(bursts', packets', ns + [n], size)
  {
    forall b | 0 <= b < |bursts|
      ensures bursts'[b] == BurstsIn(ns + [n], b, size) && packets'[b] == PacketsIn(ns + [n], b, size)
    {
      BucketIsFirst(n, size, b);
      InSnoc(ns, n, b, size);
      hide BurstsIn, PacketsIn, Bucket;
      assert InBucket(n, b, size) <==> Bucket(n, size) == b;
    }
  }

  /** When every burst has a bucket, the packets in all buckets are those of all bursts. */
  lemma {:induction false} TallyTotal(bursts: seq<nat>, packets: seq<nat>, ns: seq<nat>, size: nat)
    requires size > 0 && Tally(bursts, packets, ns, size) && forall n :: n in ns ==> n <= |packets| * size
    ensures Sum(packets) == Sum(ns)
    decreases |ns|
  {
    if ns == [] {
      SumZero(packets);
    } else if |packets| == 0 {
      forall k | 0 <= k < |ns|
        ensures ns[k] == 0
      {
        assert ns[k] in ns;
      }
      SumZero(ns);
    } else {
      var init, n := ns[..|ns| - 1], ns[|ns| - 1];
      assert ns == init + [n] && n in ns;
      var b := Bucket(n, size);
      BucketIsFirst(n, size, b);
      BucketBounded(n, size, |packets|);
      var fewer := packets[b := PacketsIn(init, b, size)];
      var bursts' := bursts[b := BurstsIn(init, b, size)];
      forall k | 0 <= k < |packets|
        ensures bursts'[k] == BurstsIn(init, k, size) && fewer[k] == PacketsIn(init, k, size)
      {
        BucketIsFirst(n, size, k);
        InSnoc(init, n, k, size);
      }
      assert forall m :: m in init ==> m in ns;
      TallyTotal(bursts', fewer, init, size);
      InSnoc(init, n, b, size);
      SumUpdate(fewer, b, n);
      assert packets == fewer[b := fewer[b] + n];
      SumSnoc(init, n);
    }
  }

  lemma BucketBounded(n: nat, size: nat, cnt: nat)
    requires size > 0 && cnt > 0
    ensures n <= cnt * size <==> Bucket(n, size) < cnt
  {
    var b := Bucket(n, size);
    BucketIsFirst(n, size, b);
    if b < cnt {
      MulMonotone(b + 1, cnt, size);
    } else {
      MulMonotone(cnt, b, size);
    }
  }

  /** A histogram keeps a count per bucket and a number of packets per bucket. */
  class BurstHistogram {
    const size: nat
    const bursts: array<nat>
    const packets: array<nat>

    ghost predicate Valid() {
      size > 0 && bursts.Length == packets.Length && bursts != packets
    }

    /** The counters show these bursts, each in its own bucket. */
    ghost predicate Shows(ns: seq<nat>)
      reads bursts, packets
    {
      Tally(bursts[..], packets[..], ns, size)
    }

    /** `rgx_stats_histogram_bucket_cnt` is the burst size divided by the bucket size. */
    constructor (burstSize: nat, bucketSize: nat)
      requires bucketSize > 0
      ensures Valid() && size == bucketSize && bursts.Length == burstSize / bucketSize
      ensures fresh(bursts) && fresh(packets)
      ensures Shows([])
      ensures Sum(packets[..]) == 0 && forall k :: 0 <= k < packets.Length ==> packets[k] == 0 && bursts[k] == 0
    {
      size := bucketSize;
      bursts := new nat[burstSize / bucketSize](_ => 0);
      packets := new nat[burstSize / bucketSize](_ => 0);
      new;
      SumZero(packets[..]);
    }

    /** The loop over `stats_i`: the first bucket whose bound covers the burst is charged, and a
        burst beyond the last bound is charged nowhere. `ns` are the bursts recorded before. */
    method Record(n: nat, ghost ns: seq<nat>)
      requires Valid() && Shows(ns)
      modifies bursts, packets
      ensures Shows(ns + [n])
      ensures n <= packets.Length * size ==>
                packets.Length == 0 ||
                (Bucket(n, size) < packets.Length &&
                 bursts[..] == old(bursts[..])[Bucket(n, size) := old(bursts[..])[Bucket(n, size)] + 1] &&
                 packets[..] == old(packets[..])[Bucket(n, size) := old(packets[..])[Bucket(n, size)] + n])
      ensures n > packets.Length * size || packets.Length == 0 ==>
                bursts[..] == old(bursts[..]) && packets[..] == old(packets[..])
      ensures Sum(packets[..]) == Sum(old(packets[..])) + if n <= packets.Length * size then n else 0
    {
      ghost var bursts', packets' := bursts[..], packets[..];
      var i := 1;
      while i <= packets.Length
        invariant 1 <= i <= packets.Length + 1
        invariant i > 1 ==> (i - 1) * size < n
        invariant bursts[..] == old(bursts[..]) && packets[..] == old(packets[..])
      {
        if n <= i * size {
          BucketIsFirst(n, size, i - 1);
          SumUpdate(packets[..], i - 1, n);
          bursts[i - 1] := bursts[i - 1] + 1;
          packets[i - 1] := packets[i - 1] + n;
          assert n <= packets.Length * size by {
            MulMonotone(i, packets.Length, size);
          }
          TallyMore(bursts', packets', bursts[..], packets[..], ns, n, size);
          return;
        }
        i := i + 1;
      }
      if packets.Length > 0 {
        BucketBounded(n, size, packets.Length);
      }
      TallyMore(bursts', packets', bursts[..], packets[..], ns, n, size);
    }
  }

  /** There is a bucket for a burst of n packets: the last one's bound is not below it. */
  predicate Lands(n: nat, burstSize: nat, bucketSize: nat)
    requires bucketSize > 0
  {
    burstSize / bucketSize > 0 && n <= burstSize / bucketSize * bucketSize
  }

  /** No burst up to the burst size is lost exactly when the bucket size divides the burst size,
      which is not zero. */
  lemma EveryBurstLands(burstSize: nat, bucketSize: nat)
    requires bucketSize > 0
    ensures (forall n: nat :: n <= burstSize ==> Lands(n, burstSize, bucketSize))
            <==> burstSize > 0 && burstSize % bucketSize == 0
  {
    assert burstSize == burstSize / bucketSize * bucketSize + burstSize % bucketSize;
    assert Lands(burstSize, burstSize, bucketSize) <==> burstSize > 0 && burstSize % bucketSize == 0;
  }

  /** With bursts of up to ten packets and buckets of four there are two buckets, and a burst of nine
      finds neither. */
  lemma NinePacketsLost()
    ensures 9 <= 10 && !Lands(9, 10, 4) && Lands(8, 10, 4)
  {
  }
}
