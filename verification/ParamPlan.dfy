/**
 The plan of an experiment (autotest/expelib.py): the lexicographic product of the parameter
 values, without the configurations that some filter refuses, each repeated.
 */
module ParamPlan {
  import opened Text

  type Config = map<string, string>

  /** One copy of every tuple behind every value. */
  function PrefixAll(vs: seq<string>, tails: seq<seq<string>>): (ts: seq<seq<string>>)
    ensures |ts| == |vs| * |tails|
  {
    if vs == [] then [] else Behind(vs[0], tails) + PrefixAll(vs[1..], tails)
  }

  function Behind(v: string, tails: seq<seq<string>>): (ts: seq<seq<string>>)
    ensures |ts| == |tails| && forall k :: 0 <= k < |ts| ==> ts[k] == [v] + tails[k]
  {
    seq(|tails|, k requires 0 <= k < |tails| => [v] + tails[k])
  }

  /** `itertools.product`: the last position moves fastest. */
  function Product(vals: seq<seq<string>>): seq<seq<string>> {
    if vals == [] then [[]] else PrefixAll(vals[0], Product(vals[1..]))
  }

  /** The dictionary built from a tuple: a later parameter of the same name wins. */
  function ConfigOf(names: seq<string>, t: seq<string>): Config
    requires |names| == |t|
  {
    if names == [] then map[] else ConfigOf(names[..|names| - 1], t[..|t| - 1])[names[|names| - 1] := t[|t| - 1]]
  }

  predicate Passes(filters: seq<Config -> bool>, cfg: Config) {
    forall k :: 0 <= k < |filters| ==> filters[k](cfg)
  }

  predicate Shaped(names: seq<string>, ts: seq<seq<string>>) {
    forall k :: 0 <= k < |ts| ==> |ts[k]| == |names|
  }

  /** The configurations for some tuples, in their order: admissible ones n times, others not. */
  function PlanFor(names: seq<string>, ts: seq<seq<string>>, filters: seq<Config -> bool>, n: nat): seq<Config>
    requires Shaped(names, ts)
  {
    if ts == [] then []
    else
      var cfg := ConfigOf(names, ts[|ts| - 1]);
      PlanFor(names, ts[..|ts| - 1], filters, n) + if Passes(filters, cfg) then Repeat(cfg, n) else []
  }

  function FilteredOut(names: seq<string>, ts: seq<seq<string>>, filters: seq<Config -> bool>): nat
    requires Shaped(names, ts)
  {
    if ts == [] then 0
    else
      FilteredOut(names, ts[..|ts| - 1], filters) + if Passes(filters, ConfigOf(names, ts[|ts| - 1])) then 0 else 1
  }

  function Plan(names: seq<string>, vals: seq<seq<string>>, filters: seq<Config -> bool>, n: nat): seq<Config>
    requires |names| == |vals|
  {
    ProductShaped(names, vals);
    PlanFor(names, Product(vals), filters, n)
  }

  /** `get_nb_combs`. */
  function NbCombs(vals: seq<seq<string>>, n: nat): nat {
    if vals == [] then n else NbCombs(vals[..|vals| - 1], n) * |vals[|vals| - 1]|
  }

  // ----- the product -----

  lemma {:induction false} PrefixAllMembers(vs: seq<string>, tails: seq<seq<string>>, t: seq<string>)
    ensures t in PrefixAll(vs, tails) <==> t != [] && t[0] in vs && t[1..] in tails
  {
    if vs != [] {
      PrefixAllMembers(vs[1..], tails, t);
      BehindMembers(vs[0], tails, t);
      assert vs == [vs[0]] + vs[1..];
    }
  }

  lemma BehindMembers(v: string, tails: seq<seq<string>>, t: seq<string>)
    ensures t in Behind(v, tails) <==> t != [] && t[0] == v && t[1..] in tails
  {
    if t in Behind(v, tails) {
      var k :| 0 <= k < |tails| && Behind(v, tails)[k] == t;
      assert t[1..] == tails[k];
    }
    if t != [] && t[0] == v && t[1..] in tails {
      var k :| 0 <= k < |tails| && tails[k] == t[1..];
      assert Behind(v, tails)[k] == [t[0]] + t[1..] == t;
    }
  }

  /** A tuple is in the product exactly when each of its places holds a value of that place. */
  lemma {:induction false} ProductMembers(vals: seq<seq<string>>, t: seq<string>)
    ensures t in Product(vals) <==> |t| == |vals| && forall i :: 0 <= i < |t| ==> t[i] in vals[i]
  {
    if vals != [] {
      PrefixAllMembers(vals[0], Product(vals[1..]), t);
      if t != [] {
        ProductMembers(vals[1..], t[1..]);
        assert t == [t[0]] + t[1..] && vals == [vals[0]] + vals[1..];
      }
    }
  }

  lemma ProductShaped(names: seq<string>, vals: seq<seq<string>>)
    requires |names| == |vals|
    ensures Shaped(names, Product(vals))
  {
    forall k | 0 <= k < |Product(vals)|
      ensures |Product(vals)[k]| == |names|
    {
      ProductMembers(vals, Product(vals)[k]);
    }
  }

  /** The entry at a given row and place of a table with rows of m entries. */
  lemma {:induction false} PrefixAllAt(vs: seq<string>, tails: seq<seq<string>>, row: nat, place: nat)
    requires row < |vs| && place < |tails|
    ensures row * |tails| + place < |PrefixAll(vs, tails)|
    ensures PrefixAll(vs, tails)[row * |tails| + place] == [vs[row]] + tails[place]
  {
    var m, k := |tails|, row * |tails| + place;
    if row > 0 {
      PrefixAllAt(vs[1..], tails, row - 1, place);
      assert k == m + ((row - 1) * m + place);
    } else {
      assert k == place;
    }
  }

  /** The order of the product: its rows follow the values of the first parameter, and each row
      is the product of the other parameters in its own order. */
  lemma ProductOrder(vals: seq<seq<string>>, row: nat, place: nat)
    requires vals != [] && row < |vals[0]| && place < |Product(vals[1..])|
    ensures var tails := Product(vals[1..]);
            && |Product(vals)| == |vals[0]| * |tails|
            && row * |tails| + place < |Product(vals)|
            && Product(vals)[row * |tails| + place] == [vals[0][row]] + tails[place]
  {
    PrefixAllAt(vals[0], Product(vals[1..]), row, place);
  }

  predicate AllDistinct(vals: seq<seq<string>>) {
    forall i :: 0 <= i < |vals| ==> Distinct(vals[i])
  }

  lemma DistinctAppend<T>(a: seq<T>, b: seq<T>)
    requires Distinct(a) && Distinct(b) && forall x :: x in a ==> x !in b
    ensures Distinct(a + b)
  {
    var c := a + b;
    forall j, k | 0 <= j < |c| && 0 <= k < |c| && c[j] == c[k]
      ensures j == k
    {
      assert j < |a| ==> c[j] in a;
      assert k < |a| ==> c[k] in a;
      assert j >= |a| ==> c[j] in b;
      assert k >= |a| ==> c[k] in b;
    }
  }

  lemma {:induction false} PrefixAllDistinct(vs: seq<string>, tails: seq<seq<string>>)
    requires Distinct(vs) && Distinct(tails)
    ensures Distinct(PrefixAll(vs, tails))
  {
    if vs != [] {
      var rest := vs[1..];
      assert forall k :: 0 <= k < |rest| ==> rest[k] == vs[k + 1];
      PrefixAllDistinct(rest, tails);
      var row := Behind(vs[0], tails);
      forall j, k | 0 <= j < |row| && 0 <= k < |row| && row[j] == row[k]
        ensures j == k
      {
        assert tails[j] == row[j][1..] == row[k][1..] == tails[k];
      }
      forall t | t in row
        ensures t !in PrefixAll(rest, tails)
      {
        BehindMembers(vs[0], tails, t);
        PrefixAllMembers(rest, tails, t);
      }
      DistinctAppend(row, PrefixAll(rest, tails));
    }
  }

  /** Without repeated values no tuple occurs twice. */
  lemma {:induction false} ProductDistinct(vals: seq<seq<string>>)
    requires AllDistinct(vals)
    ensures Distinct(Product(vals))
  {
    if vals != [] {
      ProductDistinct(vals[1..]);
      PrefixAllDistinct(vals[0], Product(vals[1..]));
    }
  }

  // ----- the plan -----

  /** The configurations an experiment asks for. */
  predicate Admissible(names: seq<string>, vals: seq<seq<string>>, filters: seq<Config -> bool>, cfg: Config)
    requires |names| == |vals|
  {
    && cfg.Keys == (set k | 0 <= k < |names| :: names[k])
    && (forall k :: 0 <= k < |names| ==> cfg[names[k]] in vals[k])
    && Passes(filters, cfg)
  }

  lemma {:induction false} ConfigLookup(names: seq<string>, t: seq<string>)
    requires |names| == |t| && Distinct(names)
    ensures ConfigOf(names, t).Keys == set k | 0 <= k < |names| :: names[k]
    ensures forall k :: 0 <= k < |names| ==> names[k] in ConfigOf(names, t) && ConfigOf(names, t)[names[k]] == t[k]
  {
    if names != [] {
      ConfigLookup(names[..|names| - 1], t[..|t| - 1]);
    }
  }

  /** With distinct names, tuples and dictionaries determine each other. */
  lemma ConfigInjective(names: seq<string>, t: seq<string>, u: seq<string>)
    requires |names| == |t| == |u| && Distinct(names) && ConfigOf(names, t) == ConfigOf(names, u)
    ensures t == u
  {
    ConfigLookup(names, t);
    ConfigLookup(names, u);
    assert forall k :: 0 <= k < |names| ==> t[k] == ConfigOf(names, t)[names[k]] == u[k];
  }

  function TupleOf(names: seq<string>, cfg: Config): (t: seq<string>)
    requires forall k :: 0 <= k < |names| ==> names[k] in cfg
    ensures |t| == |names|
  {
    seq(|names|, k requires 0 <= k < |names| => cfg[names[k]])
  }

  lemma TupleBack(names: seq<string>, cfg: Config)
    requires Distinct(names) && cfg.Keys == set k | 0 <= k < |names| :: names[k]
    ensures forall k :: 0 <= k < |names| ==> names[k] in cfg
    ensures ConfigOf(names, TupleOf(names, cfg)) == cfg
  {
    assert forall k :: 0 <= k < |names| ==> names[k] in cfg.Keys;
    ConfigLookup(names, TupleOf(names, cfg));
  }

  lemma {:induction false} RepeatCount(cfg: Config, n: nat, c: Config)
    ensures multiset(Repeat(cfg, n))[c] == if c == cfg then n else 0
  {
    if n > 0 {
      RepeatCount(cfg, n - 1, c);
      assert Repeat(cfg, n) == Repeat(cfg, n - 1) + [cfg];
    } else {
      assert Repeat(cfg, n) == [];
    }
  }

  /** Counting a configuration in the plan of distinct tuples. */
  lemma {:induction false} PlanForCount(names: seq<string>, ts: seq<seq<string>>, filters: seq<Config -> bool>,
                                        n: nat, cfg: Config)
    requires Shaped(names, ts) && Distinct(names) && Distinct(ts)
    ensures multiset(PlanFor(names, ts, filters, n))[cfg] ==
            if Passes(filters, cfg) && exists k :: 0 <= k < |ts| && ConfigOf(names, ts[k]) == cfg then n else 0
  {
    hide Passes, ConfigOf;
    if ts != [] {
      var init, last := ts[..|ts| - 1], ts[|ts| - 1];
      PlanForCount(names, init, filters, n, cfg);
      RepeatCount(ConfigOf(names, last), n, cfg);
      if ConfigOf(names, last) == cfg {
        forall k | 0 <= k < |init|
          ensures ConfigOf(names, init[k]) != cfg
        {
          if ConfigOf(names, init[k]) == cfg {
            ConfigInjective(names, init[k], last);
          }
        }
        assert ConfigOf(names, ts[|ts| - 1]) == cfg;
      }
      assert forall k :: 0 <= k < |init| ==> init[k] == ts[k];
    }
  }

  /** With distinct names and values, the plan holds every admissible configuration exactly n
      times and no other configuration at all. */
  lemma PlanIsExact(names: seq<string>, vals: seq<seq<string>>, filters: seq<Config -> bool>, n: nat, cfg: Config)
    requires |names| == |vals| && Distinct(names) && AllDistinct(vals)
    ensures multiset(Plan(names, vals, filters, n))[cfg] == if Admissible(names, vals, filters, cfg) then n else 0
  {
    hide Passes, ConfigOf, PlanFor;
    var ts := Product(vals);
    ProductShaped(names, vals);
    ProductDistinct(vals);
    PlanForCount(names, ts, filters, n, cfg);
    if k :| 0 <= k < |ts| && ConfigOf(names, ts[k]) == cfg {
      ProductMembers(vals, ts[k]);
      ConfigLookup(names, ts[k]);
    }
    if Admissible(names, vals, filters, cfg) {
      TupleBack(names, cfg);
      ProductMembers(vals, TupleOf(names, cfg));
      var k :| 0 <= k < |ts| && ts[k] == TupleOf(names, cfg);
      assert ConfigOf(names, ts[k]) == cfg;
    }
  }

  lemma {:induction false} PlanForSize(names: seq<string>, ts: seq<seq<string>>, filters: seq<Config -> bool>, n: nat)
    requires Shaped(names, ts)
    ensures |PlanFor(names, ts, filters, n)| == n * |ts| - n * FilteredOut(names, ts, filters)
  {
    hide Passes, ConfigOf;
    if ts != [] {
      PlanForSize(names, ts[..|ts| - 1], filters, n);
      assert n * |ts| == n * (|ts| - 1) + n;
      var f := FilteredOut(names, ts[..|ts| - 1], filters);
      assert n * (f + 1) == n * f + n;
    }
  }

  lemma {:induction false} NbCombsFront(v: seq<string>, vals: seq<seq<string>>, n: nat)
    ensures NbCombs([v] + vals, n) == |v| * NbCombs(vals, n)
  {
    if vals == [] {
      assert [v] + vals == [v] && [v][..0] == [];
      assert NbCombs([v], n) == n * |v|;
    } else {
      var k := |vals| - 1;
      assert ([v] + vals)[..|vals|] == [v] + vals[..k];
      NbCombsFront(v, vals[..k], n);
      var a, b := NbCombs(vals[..k], n), |vals[k]|;
      assert (|v| * a) * b == |v| * (a * b);
    }
  }

  lemma MulSwap(n: nat, a: nat, b: nat)
    ensures n * (a * b) == a * (n * b)
  {
    assert n * (a * b) == (n * a) * b == (a * n) * b == a * (n * b);
  }

  /** The product has as many tuples as `get_nb_combs` says for one repetition. */
  lemma {:induction false} ProductSize(vals: seq<seq<string>>, n: nat)
    ensures n * |Product(vals)| == NbCombs(vals, n)
  {
    if vals != [] {
      ProductSize(vals[1..], n);
      NbCombsFront(vals[0], vals[1..], n);
      assert vals == [vals[0]] + vals[1..];
      MulSwap(n, |vals[0]|, |Product(vals[1..])|);
    }
  }

  /** The number of planned configurations is the number of combinations minus n for every tuple
      that a filter refused. */
  lemma PlanSize(names: seq<string>, vals: seq<seq<string>>, filters: seq<Config -> bool>, n: nat)
    requires |names| == |vals|
    ensures Shaped(names, Product(vals))
    ensures |Plan(names, vals, filters, n)| == NbCombs(vals, n) - n * FilteredOut(names, Product(vals), filters)
  {
    ProductShaped(names, vals);
    PlanForSize(names, Product(vals), filters, n);
    ProductSize(vals, n);
  }
}
