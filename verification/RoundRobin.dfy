/** How regex-test.c spreads prepared packets over the rule subsets. */
module RoundRobin {
  import opened Arith

  /** The rule subset of the k-th packet prepared for the device. */
  function GroupOf(k: nat, subsetCnt: nat): (g: nat)
    ensures 1 <= g <= if subsetCnt > 1 then subsetCnt else 1
  {
    if subsetCnt > 1 then 1 + k % subsetCnt else 1
  }

  function GroupRange(first: nat, n: nat, subsetCnt: nat): (gs: seq<nat>)
    ensures |gs| == n
  {
    seq<nat>(n, i requires 0 <= i => GroupOf(first + i, subsetCnt))
  }

  lemma ModUnique(k: nat, m: nat, q: nat, r: nat)
    requires r < m && k == q * m + r
    ensures k % m == r && k / m == q
  {
    MulMonotone(k / m + 1, q, m);
    MulMonotone(q + 1, k / m, m);
  }

  /** The selector moves to the next subset and wraps after the last. */
  lemma NextGroup(k: nat, cnt: nat)
    requires cnt > 1
    ensures (k + 1) % cnt == if k % cnt + 1 == cnt then 0 else k % cnt + 1
    ensures (k + 1) / cnt == k / cnt + if k % cnt + 1 == cnt then 1 else 0
  {
    if k % cnt + 1 == cnt {
      ModUnique(k + 1, cnt, k / cnt + 1, 0);
    } else {
      ModUnique(k + 1, cnt, k / cnt, k % cnt + 1);
    }
  }

  /** How many of the first n prepared packets go to subset g. */
  function Load(g: nat, n: nat, cnt: nat): nat {
    if n == 0 then 0 else Load(g, n - 1, cnt) + if GroupOf(n - 1, cnt) == g then 1 else 0
  }

  lemma {:induction false} LoadIsShare(g: nat, n: nat, cnt: nat)
    requires cnt > 1 && 1 <= g <= cnt
    ensures Load(g, n, cnt) == n / cnt + if g <= n % cnt then 1 else 0
  {
    if n == 0 {
      ModUnique(0, cnt, 0, 0);
    } else {
      LoadIsShare(g, n - 1, cnt);
      NextGroup(n - 1, cnt);
    }
  }

  /** Over any prefix of the packets two subsets differ by at most one packet. */
  lemma LoadsBalanced(g: nat, g': nat, n: nat, cnt: nat)
    requires cnt > 1 && 1 <= g <= cnt && 1 <= g' <= cnt
    ensures -1 <= Load(g, n, cnt) - Load(g', n, cnt) <= 1
  {
    LoadIsShare(g, n, cnt);
    LoadIsShare(g', n, cnt);
  }
}
