/** Arithmetic shared by the models. */
module Arith {
  lemma MulMonotone(a: int, b: int, m: nat)
    ensures a <= b ==> a * m <= b * m
  {
    if a <= b {
      assert (b - a) * m >= 0;
    }
  }

  /** n / m, rounded up. */
  function CeilDiv(n: nat, m: nat): nat
    requires m > 0
  {
    (n + m - 1) / m
  }

  lemma CeilDivStep(n: nat, m: nat)
    requires n > 0 && m > 0
    ensures CeilDiv(n, m) == (n - 1) / m + 1
  {
    var q, p := (n - 1) / m, CeilDiv(n, m);
    assert q * m <= n - 1 < q * m + m;
    assert p * m <= n + m - 1 < p * m + m;
    assert (p + 1) * m == p * m + m && (q + 2) * m == q * m + m + m && (q + 1) * m == q * m + m;
    MulMonotone(p + 1, q + 1, m);
    MulMonotone(q + 2, p, m);
  }

  function Sum(a: seq<nat>): nat {
    if a == [] then 0 else a[0] + Sum(a[1..])
  }

  lemma {:induction false} SumAppend(a: seq<nat>, b: seq<nat>)
    ensures Sum(a + b) == Sum(a) + Sum(b)
  {
    if a == [] {
      assert a + b == b;
    } else {
      SumAppend(a[1..], b);
      assert (a + b)[1..] == a[1..] + b;
    }
  }

  lemma SumSnoc(a: seq<nat>, x: nat)
    ensures Sum(a + [x]) == Sum(a) + x
  {
    SumAppend(a, [x]);
    assert Sum([x]) == x + Sum([x][1..]);
  }

  lemma {:induction false} SumZero(a: seq<nat>)
    requires forall k :: 0 <= k < |a| ==> a[k] == 0
    ensures Sum(a) == 0
  {
    if a != [] {
      SumZero(a[1..]);
    }
  }
}
