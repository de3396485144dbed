/**
 Which runs of a session of autotest/exp_runner.py find rules prepared for their own parameters: the
 run loop's stretch of the plan, given to the event manager configuration by configuration.
 */
module SessionRules {
  import opened Text
  import opened ParamPlan
  import opened Experiment
  import opened EventManager

  function KeysOf(names: seq<string>): set<string> {
    set k | 0 <= k < |names| :: names[k]
  }

  lemma {:induction false} ConfigKeys(names: seq<string>, t: seq<string>)
    requires |names| == |t|
    ensures ConfigOf(names, t).Keys == KeysOf(names)
  {
    if names != [] {
      var k := |names| - 1;
      ConfigKeys(names[..k], t[..k]);
      assert names == names[..k] + [names[k]];
    }
  }

  lemma {:induction false} PlanForKeys(names: seq<string>, ts: seq<seq<string>>, filters: seq<Config -> bool>, n: nat)
    requires Shaped(names, ts)
    ensures SameKeys(PlanFor(names, ts, filters, n), KeysOf(names))
  {
    hide KeysOf, ConfigOf, Passes;
    if ts != [] {
      PlanForKeys(names, ts[..|ts| - 1], filters, n);
      ConfigKeys(names, ts[|ts| - 1]);
    }
  }

  /** All configurations of a plan have the same keys, the names of its parameters. */
  lemma PlanKeys(names: seq<string>, vals: seq<seq<string>>, filters: seq<Config -> bool>, n: nat)
    requires |names| == |vals|
    ensures SameKeys(Plan(names, vals, filters, n), KeysOf(names))
  {
    ProductShaped(names, vals);
    PlanForKeys(names, Product(vals), filters, n);
  }

  /** The parameters processed in a session up to and including position k of the plan. */
  function Processed(plan: seq<Config>, p: Progress, k: nat): seq<Params>
    requires StartOf(p) <= k < |plan|
  {
    plan[StartOf(p)..k + 1]
  }

  /** The callback log of a session that has processed position k of the plan: a new manager, which
      triggers on its first configuration unless the session has resumed. */
  function SessionLog(names: seq<string>, vals: seq<seq<string>>, filters: seq<Config -> bool>, n: nat,
                      p: Progress, k: nat): seq<(nat, Params)>
    requires |names| == |vals| && StartOf(p) <= k < |Plan(names, vals, filters, n)|
  {
    PlanKeys(names, vals, filters, n);
    CallsAfter([RULES], Processed(Plan(names, vals, filters, n), p, k), KeysOf(names), p.saved == 0)
  }

  /** A session that has reached position k of the plan runs it with rules for its own trigger values
      exactly when: having resumed, a trigger key has changed since its first configuration, or there
      are no subset ratios and the last precompile script had that configuration's values; having
      started afresh, always, as long as the experiment has a trigger key. */
  lemma RunFindsItsRules(names: seq<string>, vals: seq<seq<string>>, filters: seq<Config -> bool>, n: nat,
                         p: Progress, k: nat, precompiled: seq<Params>, found: Option<Params>)
    requires |names| == |vals| && StartOf(p) <= k < |Plan(names, vals, filters, n)|
    requires (forall c :: c in precompiled ==> c.Keys == PRECOMPILE_KEYS) && SessionFinds(precompiled, found)
    ensures SameKeys(Plan(names, vals, filters, n), KeysOf(names))
    ensures var plan, all := Plan(names, vals, filters, n), KeysOf(names);
            var u, steps := Restrict(RULES, all), Processed(plan, p, k);
            (Serves(Remains(SessionLog(names, vals, filters, n, p, k), 0, found), plan[k], u.keys)
             <==> if p.saved == 0 then u.keys != {} || found.Some?
                  else Changes(steps, all, u)
                       || ("rule_subset_ratio" !in all && Serves(found, plan[StartOf(p)], u.keys)))
  {
    hide Plan, KeysOf, CallsAfter, LastCall, Prepared, Serves, Changes;
    PlanKeys(names, vals, filters, n);
    var plan, all := Plan(names, vals, filters, n), KeysOf(names);
    var steps := Processed(plan, p, k);
    assert steps[|steps| - 1] == plan[k] && steps[0] == plan[StartOf(p)];
    LastCallIsPrepared([RULES], steps, all, p.saved == 0, 0);
    PreparedStart(RULES, steps, all, p.saved == 0, found);
    RulesAfterResume(steps, all, precompiled, found);
  }

  /** The event manager of a session, driven along the configurations that its run loop takes. */
  method SessionCalls(names: seq<string>, vals: seq<seq<string>>, filters: seq<Config -> bool>, n: nat,
                      p: Progress, k: nat, plan: seq<Config>)
    returns (calls: seq<(nat, Params)>)
    requires |names| == |vals| && plan == Plan(names, vals, filters, n) && StartOf(p) <= k < |plan|
    ensures calls == SessionLog(names, vals, filters, n, p, k)
  {
    PlanKeys(names, vals, filters, n);
    calls := Drive([RULES], Processed(plan, p, k), KeysOf(names), p.saved == 0);
  }
}
