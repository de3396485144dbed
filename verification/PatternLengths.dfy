/**
 The weighted median of et-analysis/met7.py (`analyze_mpm`): sizes with counts are merged in a
 dictionary, sorted by size, and the first size whose cumulative count reaches half is taken. That
 is the lower median of all lengths written out one by one.
 */
module PatternLengths {
  import opened Text

  datatype Entry = Entry(size: nat, count: nat)

  /** All lengths, each as often as it is counted. */
  function Expand(entries: seq<Entry>): multiset<nat> {
    if entries == [] then multiset{}
    else
      var e := entries[|entries| - 1];
      Expand(entries[..|entries| - 1]) + multiset{}[e.size := e.count]
  }

  function Total(entries: seq<Entry>): nat {
    if entries == [] then 0 else Total(entries[..|entries| - 1]) + entries[|entries| - 1].count
  }

  predicate Ascending(items: seq<Entry>) {
    forall j, k :: 0 <= j < k < |items| ==> items[j].size < items[k].size
  }

  // ----- merging and sorting -----

  /** The dictionary holds, for each size that occurs, how often it is counted. */
  ghost predicate Merged(entries: seq<Entry>, lengths: map<nat, nat>) {
    && (forall s :: s in lengths <==> exists k :: 0 <= k < |entries| && entries[k].size == s)
    && (forall s :: s in lengths ==> lengths[s] == Expand(entries)[s])
  }

  /** `length_dict[size] += count`. */
  method Merge(entries: seq<Entry>) returns (lengths: map<nat, nat>)
    ensures Merged(entries, lengths)
  {
    lengths := map[];
    assert entries[..0] == [];
    for i := 0 to |entries|
      invariant Merged(entries[..i], lengths)
    {
      hide Merged;
      var e := entries[i];
      MergeStep(entries[..i], e, lengths);
      assert entries[..i + 1] == entries[..i] + [e];
      lengths := lengths[e.size := (if e.size in lengths then lengths[e.size] else 0) + e.count];
    }
    assert entries[..|entries|] == entries;
  }

  lemma MergeStep(entries: seq<Entry>, e: Entry, lengths: map<nat, nat>)
    requires Merged(entries, lengths)
    ensures Merged(entries + [e], lengths[e.size := (if e.size in lengths then lengths[e.size] else 0) + e.count])
  {
    var longer := entries + [e];
    AbsentSize(entries);
    assert longer[..|entries|] == entries && longer[|entries|] == e;
    assert forall k :: 0 <= k < |entries| ==> longer[k] == entries[k];
    assert Expand(longer) == Expand(entries) + multiset{}[e.size := e.count];
    hide Expand;
    var lengths' := lengths[e.size := (if e.size in lengths then lengths[e.size] else 0) + e.count];
    forall s
      ensures s in lengths' <==> exists k :: 0 <= k < |longer| && longer[k].size == s
    {
      if s == e.size {
        assert longer[|entries|].size == s;
      } else if s in lengths {
        var k :| 0 <= k < |entries| && entries[k].size == s;
        assert longer[k].size == s;
      }
    }
  }

  lemma {:induction false} AbsentSize(entries: seq<Entry>)
    ensures forall s :: s in Expand(entries) ==> exists k :: 0 <= k < |entries| && entries[k].size == s
  {
    if entries != [] {
      var init := entries[..|entries| - 1];
      AbsentSize(init);
      forall s | s in Expand(entries)
        ensures exists k :: 0 <= k < |entries| && entries[k].size == s
      {
        if s in Expand(init) {
          var k :| 0 <= k < |init| && init[k].size == s;
          assert entries[k].size == s;
        } else {
          assert entries[|entries| - 1].size == s;
        }
      }
    }
  }

  /** The items listed so far, in ascending order, when the sizes `left` are still to come. */
  ghost predicate Listed(lengths: map<nat, nat>, items: seq<Entry>, left: set<nat>) {
    && left <= lengths.Keys && Ascending(items)
    && (forall s :: s in lengths && s !in left <==> exists k :: 0 <= k < |items| && items[k].size == s)
    && (forall k :: 0 <= k < |items| ==> items[k].size in lengths && items[k].count == lengths[items[k].size])
    && (forall k, s :: 0 <= k < |items| && s in left ==> items[k].size < s)
  }

  /** `sorted(length_dict.items())`, the smallest key first. */
  method SortedItems(lengths: map<nat, nat>) returns (items: seq<Entry>)
    ensures Listed(lengths, items, {})
  {
    items := [];
    var left := lengths.Keys;
    assert Listed(lengths, items, left);
    hide Listed;
    while |left| > 0
      invariant Listed(lengths, items, left)
      invariant left <= lengths.Keys
      decreases |left|
    {
      var least := Least(left);
      ListNext(lengths, items, left, least);
      items := items + [Entry(least, lengths[least])];
      left := left - {least};
    }
    assert left == {};
  }

  lemma ListNext(lengths: map<nat, nat>, items: seq<Entry>, left: set<nat>, least: nat)
    requires Listed(lengths, items, left) && least in left && least in lengths
    requires forall x :: x in left ==> least <= x
    ensures Listed(lengths, items + [Entry(least, lengths[least])], left - {least})
  {
    var longer, left' := items + [Entry(least, lengths[least])], left - {least};
    ListedSizes(lengths, items, left, least);
    assert forall k :: 0 <= k < |items| ==> longer[k] == items[k];
  }

  lemma ListedSizes(lengths: map<nat, nat>, items: seq<Entry>, left: set<nat>, least: nat)
    requires least in left && least in lengths
    requires forall s :: s in lengths && s !in left <==> exists k :: 0 <= k < |items| && items[k].size == s
    ensures var longer := items + [Entry(least, lengths[least])];
            forall s :: s in lengths && s !in left - {least} <==> exists k :: 0 <= k < |longer| && longer[k].size == s
  {
    var longer, left' := items + [Entry(least, lengths[least])], left - {least};
    assert longer[|items|].size == least;
    forall s: nat
      ensures s in lengths && s !in left' <==> exists k :: 0 <= k < |longer| && longer[k].size == s
    {
      if s in lengths && s !in left {
        var k :| 0 <= k < |items| && items[k].size == s;
        assert longer[k].size == s;
      }
      if k :| 0 <= k < |items| && items[k].size == s {
        assert s in lengths && s !in left;
      }
    }
  }

  method Pick(s: set<nat>) returns (x: nat)
    requires |s| > 0
    ensures x in s
  {
    x :| x in s;
  }

  method Least(s: set<nat>) returns (least: nat)
    requires |s| > 0
    ensures least in s && forall x :: x in s ==> least <= x
  {
    least := Pick(s);
    var left := s - {least};
    while |left| > 0
      invariant left <= s && least in s && forall x :: x in s && x !in left ==> least <= x
      decreases |left|
    {
      var x := Pick(left);
      left := left - {x};
      if x < least {
        least := x;
      }
    }
  }

  // ----- expanding sorted items -----

  /** The lengths in ascending order, written out. */
  function Spread(items: seq<Entry>): seq<nat> {
    if items == [] then [] else Spread(items[..|items| - 1]) + Repeat(items[|items| - 1].size, items[|items| - 1].count)
  }

  predicate Sorted(s: seq<nat>) {
    forall j, k :: 0 <= j < k < |s| ==> s[j] <= s[k]
  }

  lemma {:induction false} CopiesBag(x: nat, n: nat)
    ensures multiset(Repeat(x, n)) == multiset{}[x := n]
  {
    if n == 0 {
      assert Repeat(x, n) == [];
    } else {
      CopiesBag(x, n - 1);
      assert Repeat(x, n) == Repeat(x, n - 1) + [x];
    }
  }

  lemma {:induction false} SpreadFacts(items: seq<Entry>)
    requires Ascending(items)
    ensures |Spread(items)| == Total(items) && Sorted(Spread(items)) && multiset(Spread(items)) == Expand(items)
    ensures forall i :: 0 <= i < |Spread(items)| ==> items != [] && Spread(items)[i] <= items[|items| - 1].size
  {
    if items != [] {
      var init, last := items[..|items| - 1], items[|items| - 1];
      SpreadFacts(init);
      CopiesBag(last.size, last.count);
    }
  }

  /** Position i of the spread lies in the copies of the item whose cumulative range contains it. */
  lemma {:induction false} SpreadAt(items: seq<Entry>, j: nat, i: nat)
    requires j < |items| && Total(items[..j]) <= i < Total(items[..j]) + items[j].count
    requires Ascending(items)
    ensures i < |Spread(items)| && Spread(items)[i] == items[j].size
  {
    var k := |items| - 1;
    SpreadFacts(items);
    SpreadFacts(items[..k]);
    if j < k {
      assert items[..k][..j] == items[..j];
      SpreadAt(items[..k], j, i);
    }
  }

  /** Merged, sorted items stand for the same lengths as the entries they come from. */
  lemma ItemsExpand(entries: seq<Entry>, lengths: map<nat, nat>, items: seq<Entry>)
    requires Merged(entries, lengths) && Listed(lengths, items, {})
    ensures Expand(items) == Expand(entries)
  {
    forall s: nat
      ensures Expand(items)[s] == Expand(entries)[s]
    {
      AbsentSize(entries);
      AbsentSize(items);
      if k :| 0 <= k < |items| && items[k].size == s {
        CountOf(items, k);
      } else {
        assert s !in lengths;
        assert s !in Expand(entries) && s !in Expand(items);
      }
    }
  }

  lemma {:induction false} CountOf(items: seq<Entry>, k: nat)
    requires Ascending(items) && k < |items|
    ensures Expand(items)[items[k].size] == items[k].count
  {
    var init := items[..|items| - 1];
    AbsentSize(init);
    if k < |init| {
      CountOf(init, k);
    }
  }

  lemma {:induction false} TotalIsSize(entries: seq<Entry>)
    ensures |Expand(entries)| == Total(entries)
  {
    if entries != [] {
      var e := entries[|entries| - 1];
      TotalIsSize(entries[..|entries| - 1]);
      CopiesBag(e.size, e.count);
      assert |Repeat(e.size, e.count)| == e.count;
    }
  }

  // ----- the median -----

  /** v is the lower median of a bag of lengths: the middle, rounded down, of its sorted listing. */
  ghost predicate IsLowerMedian(bag: multiset<nat>, v: nat) {
    |bag| > 0 && forall s: seq<nat> :: Sorted(s) && multiset(s) == bag ==> s[(|s| - 1) / 2] == v
  }

  lemma LastIsGreatest(s: seq<nat>)
    requires Sorted(s) && s != []
    ensures var x := s[|s| - 1];
            && x in multiset(s) && (forall y :: y in multiset(s) ==> y <= x)
            && Sorted(s[..|s| - 1]) && multiset(s[..|s| - 1]) == multiset(s) - multiset{x}
  {
    assert s == s[..|s| - 1] + [s[|s| - 1]];
  }

  lemma SameLast(a: seq<nat>, b: seq<nat>)
    requires Sorted(a) && Sorted(b) && multiset(a) == multiset(b) && a != [] && b != []
    ensures a[|a| - 1] == b[|b| - 1]
    ensures Sorted(a[..|a| - 1]) && Sorted(b[..|b| - 1]) && multiset(a[..|a| - 1]) == multiset(b[..|b| - 1])
  {
    LastIsGreatest(a);
    LastIsGreatest(b);
  }

  lemma {:induction false} SortedUnique(a: seq<nat>, b: seq<nat>)
    requires Sorted(a) && Sorted(b) && multiset(a) == multiset(b)
    ensures a == b
  {
    hide Sorted;
    assert |a| == |multiset(a)| == |multiset(b)| == |b|;
    if a != [] {
      SameLast(a, b);
      SortedUnique(a[..|a| - 1], b[..|b| - 1]);
      Rebuild(a);
      Rebuild(b);
    }
  }

  lemma Rebuild(s: seq<nat>)
    requires s != []
    ensures s == s[..|s| - 1] + [s[|s| - 1]]
  {
  }

  /** The length statistics of `analyze_mpm`: the first size at which twice the cumulative count
      reaches the total. */
  method MedianLength(entries: seq<Entry>) returns (median: nat)
    ensures Total(entries) > 0 ==> IsLowerMedian(Expand(entries), median)
    ensures entries == [] ==> median == 0
    ensures entries != [] && Total(entries) == 0 ==>
              (exists k :: 0 <= k < |entries| && entries[k].size == median) &&
              forall k :: 0 <= k < |entries| ==> median <= entries[k].size
  {
    if entries == [] {
      return 0;
    }
    var lengths := Merge(entries);
    var items := SortedItems(lengths);
    ItemsExpand(entries, lengths, items);
    TotalIsSize(items);
    TotalIsSize(entries);
    assert entries[0].size in lengths;
    var total := Total(items);
    median := FirstAtHalf(items, total);
    if total > 0 {
      HalfIsMedian(items, median);
    }
    forall k | total == 0 && 0 <= k < |entries|
      ensures median <= entries[k].size
    {
      assert entries[k].size in lengths;
    }
  }

  /** The cumulative loop. */
  method FirstAtHalf(items: seq<Entry>, total: nat) returns (median: nat)
    requires items != [] && total == Total(items)
    ensures exists j :: 0 <= j < |items| && AtHalf(items, j) && items[j].size == median
    ensures total == 0 ==> median == items[0].size
  {
    var cumulative := 0;
    median := 0;
    assert items[..0] == [] && items[..|items|] == items;
    for j := 0 to |items|
      invariant cumulative == Total(items[..j])
      invariant j > 0 ==> 2 * cumulative < total
    {
      assert items[..j + 1][..j] == items[..j];
      cumulative := cumulative + items[j].count;
      if 2 * cumulative >= total {
        assert AtHalf(items, j);
        return items[j].size;
      }
    }
    assert false;
  }

  /** Item j is the first at which the cumulative count reaches half of the total. */
  predicate AtHalf(items: seq<Entry>, j: nat)
    requires j < |items|
  {
    2 * (Total(items[..j]) + items[j].count) >= Total(items) && (j > 0 ==> 2 * Total(items[..j]) < Total(items))
  }

  lemma HalfIsMedian(items: seq<Entry>, median: nat)
    requires Ascending(items) && Total(items) > 0
    requires exists j :: 0 <= j < |items| && AtHalf(items, j) && items[j].size == median
    ensures IsLowerMedian(Expand(items), median)
  {
    hide AtHalf, Ascending, Total, Expand, Spread, Sorted, IsLowerMedian;
    var j :| 0 <= j < |items| && AtHalf(items, j) && items[j].size == median;
    MiddleOfSpread(items, j);
    MedianOfListing(Expand(items), Spread(items));
  }

  lemma MiddleOfSpread(items: seq<Entry>, j: nat)
    requires Ascending(items) && Total(items) > 0 && j < |items| && AtHalf(items, j)
    ensures var s := Spread(items);
            Sorted(s) && multiset(s) == Expand(items) && s != [] && s[(|s| - 1) / 2] == items[j].size
  {
    hide AtHalf, Total, Expand, Spread, Sorted;
    SpreadFacts(items);
    MiddleInRange(items, j);
    SpreadAt(items, j, (Total(items) - 1) / 2);
  }

  lemma MedianOfListing(bag: multiset<nat>, s: seq<nat>)
    requires Sorted(s) && multiset(s) == bag && s != []
    ensures IsLowerMedian(bag, s[(|s| - 1) / 2])
  {
    hide Sorted;
    assert |bag| == |s|;
    forall t: seq<nat> | Sorted(t) && multiset(t) == bag
      ensures |t| > 0 && t[(|t| - 1) / 2] == s[(|s| - 1) / 2]
    {
      SortedUnique(t, s);
    }
  }

  lemma MiddleInRange(items: seq<Entry>, j: nat)
    requires j < |items| && AtHalf(items, j) && Total(items) > 0
    ensures Total(items[..j]) <= (Total(items) - 1) / 2 < Total(items[..j]) + items[j].count
  {
    assert items[..0] == [];
  }
}
