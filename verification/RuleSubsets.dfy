/**
 Rule subsets: `rules_to_subsets` of data/rule_sampler.py cuts a rule file by ratios, and the
 option parser of regex-test.c counts the ratios of the same string for the packet worker.
 Ratios are real numbers here.
 */
module RuleSubsets {
  import opened Text
  import opened RoundRobin

  datatype Result<+T> = Ok(value: T) | Err(message: string)

  datatype Line = Marker(id: nat) | RuleLine(text: string)

  function SumReal(rs: seq<real>): real {
    if rs == [] then 0.0 else SumReal(rs[..|rs| - 1]) + rs[|rs| - 1]
  }

  function SumInt(ns: seq<int>): int {
    if ns == [] then 0 else SumInt(ns[..|ns| - 1]) + ns[|ns| - 1]
  }

  /** Python's `int(x)`: truncation toward zero. */
  function Trunc(x: real): int {
    if x >= 0.0 then x.Floor else -((-x).Floor)
  }

  function CutShare(ratio: real, total: nat): int {
    Trunc(ratio * total as real)
  }

  function Truncated(ratios: seq<real>, total: nat): (counts: seq<int>)
    ensures |counts| == |ratios|
  {
    seq(|ratios|, i requires 0 <= i < |ratios| => CutShare(ratios[i], total))
  }

  /** The subset sizes: truncated shares, the last one corrected by what rounding left over. */
  function RuleCounts(ratios: seq<real>, total: nat): (counts: seq<int>)
    requires ratios != []
    ensures |counts| == |ratios|
  {
    var c := Truncated(ratios, total);
    c[|c| - 1 := c[|c| - 1] + total - SumInt(c)]
  }

  /** Python's slice `s[a:b]`. */
  function PyIndex(i: int, n: nat): (k: nat)
    ensures k <= n
  {
    if i >= n then n else if i >= 0 then i else if i + n >= 0 then i + n else 0
  }

  function PySlice<T>(s: seq<T>, a: int, b: int): seq<T> {
    var lo, hi := PyIndex(a, |s|), PyIndex(b, |s|);
    if lo <= hi then s[lo..hi] else []
  }

  function AsLines(rules: seq<string>): (ls: seq<Line>)
    ensures |ls| == |rules|
  {
    seq(|rules|, i requires 0 <= i < |rules| => RuleLine(rules[i]))
  }

  /** The output file for given subset sizes. */
  function Written(rules: seq<string>, counts: seq<int>): seq<Line> {
    if counts == [] then []
    else
      var k := |counts| - 1;
      var start := SumInt(counts[..k]);
      Written(rules, counts[..k]) + [Marker(k + 1)] + AsLines(PySlice(rules, start, start + counts[k]))
  }

  lemma WrittenSnoc(rules: seq<string>, counts: seq<int>, i: nat)
    requires i < |counts|
    ensures SumInt(counts[..i + 1]) == SumInt(counts[..i]) + counts[i]
    ensures var start := SumInt(counts[..i]);
            Written(rules, counts[..i + 1]) ==
            Written(rules, counts[..i]) + [Marker(i + 1)] + AsLines(PySlice(rules, start, start + counts[i]))
  {
    assert counts[..i + 1][..i] == counts[..i];
  }

  /** One subset of the file: its marker and then its rules, line by line. */
  method WriteSubset(file: seq<Line>, id: nat, rules: seq<string>) returns (longer: seq<Line>)
    ensures longer == file + [Marker(id)] + AsLines(rules)
  {
    longer := file + [Marker(id)];
    for i := 0 to |rules|
      invariant longer == file + [Marker(id)] + AsLines(rules[..i])
    {
      AsLinesSnoc(rules, i);
      longer := longer + [RuleLine(rules[i])];
    }
    assert rules[..|rules|] == rules;
  }

  lemma AsLinesSnoc(rules: seq<string>, i: nat)
    requires i < |rules|
    ensures AsLines(rules[..i + 1]) == AsLines(rules[..i]) + [RuleLine(rules[i])]
  {
  }

  /** The writing loop, which carries the start of the next subset along. */
  method WriteSubsets(rules: seq<string>, ruleCounts: seq<int>) returns (file: seq<Line>)
    ensures file == Written(rules, ruleCounts)
  {
    var startIdx := 0;
    file := [];
    assert ruleCounts[..0] == [] && SumInt([]) == 0 && Written(rules, []) == [];
    hide SumInt, Written, AsLines, PySlice;
    for i := 0 to |ruleCounts|
      invariant startIdx == SumInt(ruleCounts[..i])
      invariant file == Written(rules, ruleCounts[..i])
    {
      WrittenSnoc(rules, ruleCounts, i);
      var count := ruleCounts[i];
      file := WriteSubset(file, i + 1, PySlice(rules, startIdx, startIdx + count));
      startIdx := startIdx + count;
    }
    assert ruleCounts[..|ruleCounts|] == ruleCounts;
  }

  /** `rules_to_subsets` without the file access. */
  method RulesToSubsets(ratios: seq<real>, rules: seq<string>) returns (r: Result<seq<Line>>)
    ensures r.Ok? <==> SumReal(ratios) == 1.0 && |rules| > |ratios|
    ensures r.Ok? ==> r.value == Written(rules, RuleCounts(ratios, |rules|))
  {
    if SumReal(ratios) != 1.0 {
      return Err("Ratios must sum to 1");
    }
    var totalRules := |rules|;
    if totalRules <= |ratios| {
      return Err("Number of rules must be greater than number of ratios.");
    }
    var c := Truncated(ratios, totalRules);
    var ruleCounts := c[|c| - 1 := c[|c| - 1] + totalRules - SumInt(c)];
    var file := WriteSubsets(rules, ruleCounts);
    return Ok(file);
  }

  // ----- the subsets are a partition -----

  /** The sequence 1, 2, ..., n. */
  function Numbers(n: nat): (ids: seq<nat>)
    ensures |ids| == n
  {
    seq<nat>(n, i requires 0 <= i => i + 1)
  }

  lemma NumbersSnoc(n: nat)
    ensures Numbers(n) + [n + 1] == Numbers(n + 1)
  {
  }

  /** The rule lines of a subset file. */
  function RulesOf(file: seq<Line>): seq<string> {
    if file == [] then []
    else (if file[0].RuleLine? then [file[0].text] else []) + RulesOf(file[1..])
  }

  /** The subset ids of a subset file. */
  function IdsOf(file: seq<Line>): seq<nat> {
    if file == [] then []
    else (if file[0].Marker? then [file[0].id] else []) + IdsOf(file[1..])
  }

  lemma {:induction false} FileAppend(a: seq<Line>, b: seq<Line>)
    ensures RulesOf(a + b) == RulesOf(a) + RulesOf(b) && IdsOf(a + b) == IdsOf(a) + IdsOf(b)
  {
    if a == [] {
      assert a + b == b;
    } else {
      assert (a + b)[1..] == a[1..] + b;
      FileAppend(a[1..], b);
      var r, i := if a[0].RuleLine? then [a[0].text] else [], if a[0].Marker? then [a[0].id] else [];
      assert RulesOf(a + b) == r + RulesOf(a[1..] + b) && IdsOf(a + b) == i + IdsOf(a[1..] + b);
      Regroup(r, RulesOf(a[1..]), RulesOf(b));
      Regroup(i, IdsOf(a[1..]), IdsOf(b));
    }
  }

  lemma {:induction false} LinesAreRules(rules: seq<string>)
    ensures RulesOf(AsLines(rules)) == rules && IdsOf(AsLines(rules)) == []
  {
    if rules != [] {
      assert AsLines(rules)[1..] == AsLines(rules[1..]);
      LinesAreRules(rules[1..]);
    }
  }

  predicate NoneNegative(ns: seq<int>) {
    forall i :: 0 <= i < |ns| ==> ns[i] >= 0
  }

  predicate AreRatios(rs: seq<real>) {
    forall i :: 0 <= i < |rs| ==> rs[i] >= 0.0
  }

  lemma {:induction false} SumIntNonNegative(ns: seq<int>)
    requires NoneNegative(ns)
    ensures SumInt(ns) >= 0
  {
    if ns != [] {
      SumIntNonNegative(ns[..|ns| - 1]);
    }
  }

  /** For non-negative sizes within the file, the subsets list a prefix of the rules in order. */
  lemma {:induction false} WrittenIsPrefix(rules: seq<string>, counts: seq<int>)
    requires NoneNegative(counts) && SumInt(counts) <= |rules|
    ensures SumInt(counts) >= 0
    ensures RulesOf(Written(rules, counts)) == rules[..SumInt(counts)]
    ensures IdsOf(Written(rules, counts)) == Numbers(|counts|)
  {
    SumIntNonNegative(counts);
    if counts != [] {
      var k := |counts| - 1;
      SumIntNonNegative(counts[..k]);
      WrittenIsPrefix(rules, counts[..k]);
      ChunkFollows(rules, Written(rules, counts[..k]), k, SumInt(counts[..k]), SumInt(counts));
    }
  }

  lemma MarkerFollows(file: seq<Line>, id: nat)
    ensures RulesOf(file + [Marker(id)]) == RulesOf(file)
    ensures IdsOf(file + [Marker(id)]) == IdsOf(file) + [id]
  {
    FileAppend(file, [Marker(id)]);
    assert RulesOf([Marker(id)]) == [] && IdsOf([Marker(id)]) == [id];
  }

  lemma LinesFollow(file: seq<Line>, rules: seq<string>)
    ensures RulesOf(file + AsLines(rules)) == RulesOf(file) + rules
    ensures IdsOf(file + AsLines(rules)) == IdsOf(file)
  {
    FileAppend(file, AsLines(rules));
    LinesAreRules(rules);
  }

  lemma ChunkFollows(rules: seq<string>, file: seq<Line>, k: nat, lo: nat, hi: nat)
    requires lo <= hi <= |rules|
    requires RulesOf(file) == rules[..lo] && IdsOf(file) == Numbers(k)
    ensures var file' := file + [Marker(k + 1)] + AsLines(PySlice(rules, lo, hi));
            RulesOf(file') == rules[..hi] && IdsOf(file') == Numbers(k + 1)
  {
    assert PySlice(rules, lo, hi) == rules[lo..hi];
    hide RulesOf, IdsOf, PySlice, Numbers, AsLines;
    MarkerFollows(file, k + 1);
    NumbersSnoc(k);
    LinesFollow(file + [Marker(k + 1)], rules[lo..hi]);
    assert rules[..lo] + rules[lo..hi] == rules[..hi];
  }

  lemma SumIntUpdateLast(ns: seq<int>, d: int)
    requires ns != []
    ensures SumInt(ns[|ns| - 1 := ns[|ns| - 1] + d]) == SumInt(ns) + d
  {
    var k := |ns| - 1;
    assert ns[k := ns[k] + d][..k] == ns[..k];
  }

  /** The exact share of one ratio. */
  function Share(ratio: real, total: nat): real {
    ratio * total as real
  }

  /** The share of a subset and its truncation. */
  predicate Truncates(n: int, ratio: real, total: nat) {
    n >= 0 && Share(ratio, total) - 1.0 < n as real <= Share(ratio, total)
  }

  lemma TruncatedShare(ratio: real, total: nat)
    requires ratio >= 0.0
    ensures Truncates(CutShare(ratio, total), ratio, total)
  {
    assert ratio * total as real >= 0.0;
  }

  function SumShares(ratios: seq<real>, total: nat): real {
    if ratios == [] then 0.0 else SumShares(ratios[..|ratios| - 1], total) + Share(ratios[|ratios| - 1], total)
  }

  lemma {:induction false} SharesOfSum(ratios: seq<real>, total: nat)
    ensures SumShares(ratios, total) == SumReal(ratios) * total as real
  {
    if ratios != [] {
      SharesOfSum(ratios[..|ratios| - 1], total);
    }
  }

  lemma SharesOfOne(ratios: seq<real>, total: nat)
    requires SumReal(ratios) == 1.0
    ensures SumShares(ratios, total) == total as real
  {
    SharesOfSum(ratios, total);
  }

  /** Truncating each share loses less than one rule per subset. */
  lemma {:induction false} RoundingLoss(ratios: seq<real>, total: nat)
    requires AreRatios(ratios)
    ensures var loss := SumShares(ratios, total) - SumInt(Truncated(ratios, total)) as real;
            0.0 <= loss <= |ratios| as real && (ratios != [] ==> loss < |ratios| as real)
    ensures forall i :: 0 <= i < |ratios| ==> Truncates(Truncated(ratios, total)[i], ratios[i], total)
  {
    hide CutShare, Share;
    if ratios != [] {
      var k := |ratios| - 1;
      TruncatedShare(ratios[k], total);
      RoundingLoss(ratios[..k], total);
      assert Truncated(ratios, total)[..k] == Truncated(ratios[..k], total);
    }
    forall i | 0 <= i < |ratios|
      ensures Truncates(Truncated(ratios, total)[i], ratios[i], total)
    {
      TruncatedShare(ratios[i], total);
    }
  }

  /** For non-negative ratios that sum to one: no size is negative, the sizes sum to the rule
      count, every size but the last is within one below its share, and the last exceeds its
      share by less than the number of the others (by nothing when there is no other). */
  lemma SizesMeetRatios(ratios: seq<real>, total: nat)
    requires AreRatios(ratios) && SumReal(ratios) == 1.0
    ensures ratios != []
    ensures var c := RuleCounts(ratios, total);
            var last := |ratios| - 1;
            && NoneNegative(c) && SumInt(c) == total
            && (forall i :: 0 <= i < last ==> Truncates(c[i], ratios[i], total))
            && var excess := c[last] as real - Share(ratios[last], total);
               if last == 0 then excess == 0.0 else 0.0 <= excess < last as real
  {
    assert ratios != [];
    LastSize(ratios, total);
    RoundingLoss(ratios, total);
    CorrectedLast(ratios, total);
    hide Truncated, SumReal, SumInt, Share, SumShares;
    var t := Truncated(ratios, total);
    assert forall i :: 0 <= i < |t| ==> Truncates(t[i], ratios[i], total);
  }

  lemma LastSize(ratios: seq<real>, total: nat)
    requires AreRatios(ratios) && SumReal(ratios) == 1.0 && ratios != []
    ensures var last := |ratios| - 1;
            var excess := RuleCounts(ratios, total)[last] as real - Share(ratios[last], total);
            if last == 0 then excess == 0.0 else 0.0 <= excess < last as real
  {
    var last := |ratios| - 1;
    var init := ratios[..last];
    SharesOfOne(ratios, total);
    CorrectedLast(ratios, total);
    RoundingLoss(init, total);
    hide Truncated, SumReal, Share, RuleCounts;
    LastExcess(total, SumInt(Truncated(init, total)), SumShares(init, total), Share(ratios[last], total), last);
  }

  lemma LastExcess(total: int, others: int, sharesOfOthers: real, share: real, last: nat)
    requires sharesOfOthers + share == total as real
    requires 0.0 <= sharesOfOthers - others as real <= last as real
    ensures 0.0 <= (total - others) as real - share <= last as real
    ensures (total - others) as real - share == sharesOfOthers - others as real
  {
  }

  /** The correction moves only the last size, to what the others leave over. */
  lemma CorrectedLast(ratios: seq<real>, total: nat)
    requires ratios != []
    ensures var c, t, last := RuleCounts(ratios, total), Truncated(ratios, total), |ratios| - 1;
            && SumInt(c) == total
            && c[last] == total - SumInt(Truncated(ratios[..last], total))
            && forall i :: 0 <= i < last ==> c[i] == t[i]
  {
    var t, last := Truncated(ratios, total), |ratios| - 1;
    assert t[..last] == Truncated(ratios[..last], total);
    SumIntUpdateLast(t, total - SumInt(t));
  }

  /** Whatever the rules are, cutting them by non-negative ratios and leaving out the marker lines
      gives back the rules, in order and once each, under the subset ids 1, 2, ..., k. */
  lemma {:induction false} SubsetsPartition(ratios: seq<real>, rules: seq<string>)
    requires AreRatios(ratios) && SumReal(ratios) == 1.0
    ensures ratios != []
    ensures var file := Written(rules, RuleCounts(ratios, |rules|));
            RulesOf(file) == rules && IdsOf(file) == Numbers(|ratios|)
  {
    SizesMeetRatios(ratios, |rules|);
    WrittenIsPrefix(rules, RuleCounts(ratios, |rules|));
    assert rules[..|rules|] == rules;
  }

  // ----- counting the ratios in C -----

  /** `args_parse_subset_ratios`: a loop that moves either the string pointer or the index. The
      argument is read up to its terminator, from its second character on. */
  method ParseSubsetRatios(arg: string) returns (n: nat)
    requires arg != "" && '\0' !in arg
    ensures n == 1 + Count(arg[1..], ':')
  {
    var memory := arg + ['\0'];
    var s, i := 0, 1;
    assert arg[1..1] == "";
    while memory[s + i] != '\0'
      invariant 1 <= i && s + i <= |arg|
      invariant i == 1 + Count(arg[1..s + i], ':')
      decreases |arg| - (s + i)
    {
      CountSnoc(arg[1..s + i], memory[s + i], ':');
      assert arg[1..s + i] + [arg[s + i]] == arg[1..s + i + 1];
      if memory[s + i] == ':' {
        i := i + 1;
      } else {
        s := s + 1;
      }
    }
    assert arg[1..|arg|] == arg[1..];
    return i;
  }

  lemma {:induction false} CountSnoc(s: string, x: char, c: char)
    ensures Count(s + [x], c) == Count(s, c) + if x == c then 1 else 0
  {
    if s == "" {
      assert s + [x] == [x] && [x][1..] == "";
    } else {
      assert (s + [x])[1..] == s[1..] + [x];
      CountSnoc(s[1..], x, c);
    }
  }

  /** The C loop counts the ':'-separated fields exactly when the string does not start with ':'. */
  lemma RatiosAreFields(arg: string)
    requires arg != ""
    ensures 1 + Count(arg[1..], ':') == |Split(arg, ':')| <==> arg[0] != ':'
  {
  }

  /** A leading ':' is not seen: the two fields of ":1" are counted as one. */
  lemma LeadingColonMissed()
    ensures 1 + Count(":1"[1..], ':') == 1 && |Split(":1", ':')| == 2
  {
    assert ":1"[1..] == "1" && "1"[1..] == "";
  }

  /** For one ratio string given to both programs, every subset a packet is sent to is one that
      the partitioner wrote. */
  lemma GroupsAreWritten(arg: string, ratios: seq<real>, rules: seq<string>, k: nat)
    requires arg != "" && arg[0] != ':'
    requires |ratios| == |Split(arg, ':')|
    requires AreRatios(ratios) && SumReal(ratios) == 1.0
    ensures GroupOf(k, 1 + Count(arg[1..], ':')) in IdsOf(Written(rules, RuleCounts(ratios, |rules|)))
  {
    SubsetsPartition(ratios, rules);
    RatiosAreFields(arg);
    var ids := IdsOf(Written(rules, RuleCounts(ratios, |rules|)));
    var g := GroupOf(k, |ratios|);
    assert ids[g - 1] == g;
  }
}
