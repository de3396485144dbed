/**
 `ParameterEventManager` of autotest/expelib.py: callbacks that fire when parameters change. The
 experiment uses it to keep rules prepared on the remote machine in step with the parameters, so
 the parameters of the last callback are the contents of a cache.
 */
module EventManager {
  import opened Text

  type Params = map<string, string>

  datatype Mode = Disjunction | Conjunction

  datatype Trigger = Trigger(mode: Mode, keys: set<string>)

  /** `_get_param_diff`; a key that has disappeared is a KeyError, one that is new goes unseen. */
  function Diff(previous: Option<Params>, params: Params, onBlank: bool): set<string>
    requires previous.Some? ==> previous.value.Keys <= params.Keys
  {
    match previous
    case None => if onBlank then params.Keys else {}
    case Some(p) => set k | k in p && p[k] != params[k]
  }

  /** The keys that count as changed, said key by key. */
  lemma {:induction false} DiffIs(previous: Option<Params>, params: Params, onBlank: bool, key: string)
    requires previous.Some? ==> previous.value.Keys <= params.Keys
    ensures key in Diff(previous, params, onBlank)
            <==> (previous.None? && onBlank && key in params)
                 || (previous.Some? && key in previous.value && previous.value[key] != params[key])
  {
  }

  predicate Fires(t: Trigger, diff: set<string>) {
    match t.mode
    case Disjunction => diff * t.keys != {}
    case Conjunction => t.keys <= diff
  }

  /** The callbacks of one step, by index, in order of registration. */
  function Fired(triggers: seq<Trigger>, diff: set<string>, params: Params): seq<(nat, Params)> {
    if triggers == [] then []
    else
      var i := |triggers| - 1;
      Fired(triggers[..i], diff, params) + if Fires(triggers[i], diff) then [(i, params)] else []
  }

  class ParameterEventManager {
    const triggerOnBlank: bool
    var triggers: seq<Trigger>
    var previous: Option<Params>
    var calls: seq<(nat, Params)>

    constructor (triggerOnBlank: bool)
      ensures this.triggerOnBlank == triggerOnBlank && triggers == [] && previous == None && calls == []
    {
      this.triggerOnBlank := triggerOnBlank;
      triggers, previous, calls := [], None, [];
    }

    method RegisterParameterEvent(keys: set<string>, mode: Mode)
      modifies this`triggers
      ensures triggers == old(triggers) + [Trigger(mode, keys)]
    {
      triggers := triggers + [Trigger(mode, keys)];
    }

    /** `_get_param_diff`: the loop over the previous keys, in any order; None for its KeyError. */
    method GetParamDiff(params: Params) returns (diff: Option<set<string>>)
      ensures diff.Some? <==> previous.Some? ==> previous.value.Keys <= params.Keys
      ensures diff.Some? ==> diff.value == Diff(previous, params, triggerOnBlank)
    {
      if previous.None? {
        return Some(if triggerOnBlank then params.Keys else {});
      }
      var diffs: set<string> := {};
      var rest := previous.value.Keys;
      while rest != {}
        invariant rest <= previous.value.Keys && previous.value.Keys - rest <= params.Keys
        invariant forall k :: k in diffs <==>
                    k in previous.value && k !in rest && previous.value[k] != params[k]
        decreases rest
      {
        var k :| k in rest;
        rest := rest - {k};
        if k !in params {
          return None;
        }
        if previous.value[k] != params[k] {
          diffs := diffs + {k};
        }
      }
      assert diffs == Diff(previous, params, triggerOnBlank);
      return Some(diffs);
    }

    /** `process_parameters`; without effect when it ends in a KeyError. */
    method ProcessParameters(params: Params) returns (ok: bool)
      modifies this`previous, this`calls
      ensures ok <==> old(previous).Some? ==> old(previous).value.Keys <= params.Keys
      ensures ok ==> previous == Some(params)
      ensures ok ==> calls == old(calls) + Fired(triggers, Diff(old(previous), params, triggerOnBlank), params)
      ensures !ok ==> previous == old(previous) && calls == old(calls)
    {
      var diff := GetParamDiff(params);
      if diff.None? {
        return false;
      }
      ok := true;
      var currTrigger := diff.value;
      previous := Some(params);
      for i := 0 to |triggers|
        invariant previous == Some(params)
        invariant calls == old(calls) + Fired(triggers[..i], currTrigger, params)
      {
        assert triggers[..i + 1][..i] == triggers[..i];
        var t := triggers[i];
        if t.mode == Disjunction && |currTrigger * t.keys| > 0 {
          calls := calls + [(i, params)];
          continue;
        } else if t.mode == Conjunction && t.keys <= currTrigger {
          calls := calls + [(i, params)];
        }
      }
      assert triggers[..|triggers|] == triggers;
    }
  }

  // ----- the last callback as a cache -----

  /** Two parameter sets agree on the keys of a trigger. */
  predicate Agree(a: Params, b: Params, keys: set<string>)
    requires keys <= a.Keys && keys <= b.Keys
  {
    forall k :: k in keys ==> a[k] == b[k]
  }

  /** All steps use the same keys. */
  ghost predicate SameKeys(steps: seq<Params>, all: set<string>) {
    forall i :: 0 <= i < |steps| ==> steps[i].Keys == all
  }

  /** All steps use the same keys, and the trigger's keys are among them. */
  ghost predicate FixedKeys(steps: seq<Params>, all: set<string>, t: Trigger) {
    t.keys <= all && SameKeys(steps, all)
  }

  function Before(steps: seq<Params>): Option<Params>
    requires steps != []
  {
    if |steps| == 1 then None else Some(steps[|steps| - 2])
  }

  /** The parameters that the last callback of a trigger was given, after some steps of a manager
      that was new at first; `start` is what was prepared before. */
  function Prepared(t: Trigger, steps: seq<Params>, all: set<string>, onBlank: bool, start: Option<Params>)
    : Option<Params>
    requires forall i :: 0 <= i < |steps| ==> steps[i].Keys == all
  {
    if steps == [] then start
    else
      var last := steps[|steps| - 1];
      if Fires(t, Diff(Before(steps), last, onBlank)) then Some(last)
      else Prepared(t, steps[..|steps| - 1], all, onBlank, start)
  }

  /** What the callback log shows as the last call of trigger i. */
  function LastCall(calls: seq<(nat, Params)>, i: nat): Option<Params> {
    if calls == [] then None
    else
      var c := calls[|calls| - 1];
      if c.0 == i then Some(c.1) else LastCall(calls[..|calls| - 1], i)
  }

  /** The callback log of a new manager after some steps. */
  function CallsAfter(triggers: seq<Trigger>, steps: seq<Params>, all: set<string>, onBlank: bool): seq<(nat, Params)>
    requires forall i :: 0 <= i < |steps| ==> steps[i].Keys == all
  {
    if steps == [] then []
    else
      var last := steps[|steps| - 1];
      CallsAfter(triggers, steps[..|steps| - 1], all, onBlank) +
      Fired(triggers, Diff(Before(steps), last, onBlank), last)
  }

  lemma {:induction false} LastCallAppend(a: seq<(nat, Params)>, b: seq<(nat, Params)>, i: nat)
    ensures LastCall(a + b, i) == if LastCall(b, i).Some? then LastCall(b, i) else LastCall(a, i)
  {
    if b == [] {
      assert a + b == a;
    } else {
      assert (a + b)[..|a + b| - 1] == a + b[..|b| - 1];
      LastCallAppend(a, b[..|b| - 1], i);
    }
  }

  lemma {:induction false} FiredOnce(triggers: seq<Trigger>, diff: set<string>, params: Params, i: nat)
    ensures LastCall(Fired(triggers, diff, params), i) ==
            if i < |triggers| && Fires(triggers[i], diff) then Some(params) else None
  {
    hide Fires;
    if triggers != [] {
      var k := |triggers| - 1;
      FiredOnce(triggers[..k], diff, params, i);
      if Fires(triggers[k], diff) {
        var f := Fired(triggers, diff, params);
        assert f[..|f| - 1] == Fired(triggers[..k], diff, params);
      } else {
        assert Fired(triggers, diff, params) == Fired(triggers[..k], diff, params);
      }
    }
  }

  /** The log and the cache view agree: the last call of a registered trigger is what `Prepared` says. */
  lemma {:induction false} LastCallIsPrepared(triggers: seq<Trigger>, steps: seq<Params>, all: set<string>,
                                              onBlank: bool, i: nat)
    requires i < |triggers| && forall k :: 0 <= k < |steps| ==> steps[k].Keys == all
    ensures LastCall(CallsAfter(triggers, steps, all, onBlank), i) == Prepared(triggers[i], steps, all, onBlank, None)
  {
    hide Fires, Fired, LastCall;
    if steps != [] {
      var init, last := steps[..|steps| - 1], steps[|steps| - 1];
      var diff := Diff(Before(steps), last, onBlank);
      LastCallIsPrepared(triggers, init, all, onBlank, i);
      LastCallAppend(CallsAfter(triggers, init, all, onBlank), Fired(triggers, diff, last), i);
      FiredOnce(triggers, diff, last, i);
    } else {
      NoCalls(i);
    }
  }

  /** What trigger i's callbacks have left, given what lay there before the first of them. */
  function Remains(calls: seq<(nat, Params)>, i: nat, start: Option<Params>): Option<Params> {
    if LastCall(calls, i).Some? then LastCall(calls, i) else start
  }

  lemma {:induction false} PreparedStart(t: Trigger, steps: seq<Params>, all: set<string>, onBlank: bool,
                                         start: Option<Params>)
    requires SameKeys(steps, all)
    ensures var p := Prepared(t, steps, all, onBlank, None);
            Prepared(t, steps, all, onBlank, start) == if p.Some? then p else start
  {
    if steps != [] {
      PreparedStart(t, steps[..|steps| - 1], all, onBlank, start);
    }
  }

  /** A new manager with some triggers, driven through some steps with the same keys, as the run loop
      drives it: the log of its callbacks is the specified one. */
  method Drive(triggers: seq<Trigger>, steps: seq<Params>, ghost all: set<string>, onBlank: bool)
    returns (calls: seq<(nat, Params)>)
    requires SameKeys(steps, all)
    ensures calls == CallsAfter(triggers, steps, all, onBlank)
    ensures forall i, start :: 0 <= i < |triggers| ==>
              Remains(calls, i, start) == Prepared(triggers[i], steps, all, onBlank, start)
  {
    hide Fires, Fired, LastCall, Diff;
    var manager := new ParameterEventManager(onBlank);
    for i := 0 to |triggers|
      invariant manager.triggers == triggers[..i] && manager.previous == None && manager.calls == []
      invariant fresh(manager)
    {
      manager.RegisterParameterEvent(triggers[i].keys, triggers[i].mode);
    }
    assert triggers[..|triggers|] == triggers && steps[..0] == [];
    for k := 0 to |steps|
      invariant fresh(manager) && manager.triggers == triggers
      invariant manager.previous == if k == 0 then None else Some(steps[k - 1])
      invariant manager.calls == CallsAfter(triggers, steps[..k], all, onBlank)
    {
      assert steps[..k + 1][..k] == steps[..k];
      assert Before(steps[..k + 1]) == manager.previous;
      var ok := manager.ProcessParameters(steps[k]);
    }
    assert steps[..|steps|] == steps;
    calls := manager.calls;
    forall i, start | 0 <= i < |triggers|
      ensures Remains(calls, i, start) == Prepared(triggers[i], steps, all, onBlank, start)
    {
      LastCallIsPrepared(triggers, steps, all, onBlank, i);
      PreparedStart(triggers[i], steps, all, onBlank, start);
    }
  }

  lemma NoCalls(i: nat)
    ensures LastCall([], i) == None
  {
  }

  /** The diff of two steps with the same keys meets a trigger exactly when they disagree on it,
      and contains it exactly when they differ on all of it. */
  lemma DiffMeets(a: Params, b: Params, keys: set<string>)
    requires a.Keys == b.Keys && keys <= a.Keys
    ensures Diff(Some(a), b, true) * keys == {} <==> Agree(a, b, keys)
    ensures keys <= Diff(Some(a), b, true) <==> forall k :: k in keys ==> a[k] != b[k]
  {
    var d := Diff(Some(a), b, true);
    if !Agree(a, b, keys) {
      var k :| k in keys && a[k] != b[k];
      assert k in d * keys;
    }
    assert forall k :: k in keys ==> (k in d <==> a[k] != b[k]);
  }

  /** Coherence with a blank start that triggers: after every step of a disjunction trigger the
      last callback had the current values of all its keys. */
  lemma {:induction false} AlwaysPrepared(t: Trigger, steps: seq<Params>, all: set<string>, start: Option<Params>)
    requires t.mode == Disjunction && t.keys != {} && FixedKeys(steps, all, t) && steps != []
    ensures var p := Prepared(t, steps, all, true, start);
            p.Some? && p.value.Keys == all && Agree(p.value, steps[|steps| - 1], t.keys)
  {
    var init, last := steps[..|steps| - 1], steps[|steps| - 1];
    if init == [] {
      assert Diff(None, last, true) * t.keys == t.keys;
    } else {
      AlwaysPrepared(t, init, all, start);
      assert init[|init| - 1] == steps[|steps| - 2];
      DiffMeets(init[|init| - 1], last, t.keys);
    }
  }

  /** Some step differs from its predecessor on the trigger's keys. */
  ghost predicate Changes(steps: seq<Params>, all: set<string>, t: Trigger)
    requires FixedKeys(steps, all, t)
  {
    exists j :: 0 < j < |steps| && !Agree(steps[j - 1], steps[j], t.keys)
  }

  /** Some parameters, if any, give the keys the values that they have in the current step. */
  predicate Serves(p: Option<Params>, current: Params, keys: set<string>)
    requires keys <= current.Keys
  {
    p.Some? && keys <= p.value.Keys && forall k :: k in keys ==> p.value[k] == current[k]
  }

  /** Coherence with a blank start that does not trigger, as after a resume: what is prepared is
      right for the current step exactly when what lay there at the start was right for the first
      step, or when a trigger key has changed since. */
  lemma {:induction false} PreparedAfterResume(t: Trigger, steps: seq<Params>, all: set<string>, start: Option<Params>)
    requires t.mode == Disjunction && FixedKeys(steps, all, t) && steps != []
    ensures Serves(Prepared(t, steps, all, false, start), steps[|steps| - 1], t.keys)
            <==> Serves(start, steps[0], t.keys) || Changes(steps, all, t)
  {
    var init, last := steps[..|steps| - 1], steps[|steps| - 1];
    if init == [] {
      assert Prepared(t, steps, all, false, start) == Prepared(t, init, all, false, start) == start;
      assert !Changes(steps, all, t);
    } else {
      PreparedAfterResume(t, init, all, start);
      var prev := init[|init| - 1];
      assert prev == steps[|steps| - 2];
      DiffMeets(prev, last, t.keys);
      assert Diff(Some(prev), last, false) == Diff(Some(prev), last, true);
      if Agree(prev, last, t.keys) {
        ChangesInit(steps, all, t);
        assert Prepared(t, steps, all, false, start) == Prepared(t, init, all, false, start);
      } else {
        assert Changes(steps, all, t) by {
          assert !Agree(steps[|steps| - 2], steps[|steps| - 1], t.keys);
        }
        assert Prepared(t, steps, all, false, start) == Some(last);
      }
    }
  }

  lemma ChangesInit(steps: seq<Params>, all: set<string>, t: Trigger)
    requires FixedKeys(steps, all, t) && |steps| > 1 && Agree(steps[|steps| - 2], steps[|steps| - 1], t.keys)
    ensures FixedKeys(steps[..|steps| - 1], all, t)
    ensures Changes(steps, all, t) <==> Changes(steps[..|steps| - 1], all, t)
  {
    hide Agree;
    var init := steps[..|steps| - 1];
    assert forall j :: 0 <= j < |init| ==> init[j] == steps[j];
    if Changes(steps, all, t) {
      var j :| 0 < j < |steps| && !Agree(steps[j - 1], steps[j], t.keys);
      assert j < |init| && init[j - 1] == steps[j - 1] && init[j] == steps[j];
    }
    if Changes(init, all, t) {
      var j :| 0 < j < |init| && !Agree(init[j - 1], init[j], t.keys);
      assert init[j - 1] == steps[j - 1] && init[j] == steps[j];
    }
  }

  /** A conjunction trigger keeps step only in part: if the last callback had the values of the
      previous step, then it has those of the current one exactly when either none or all of the
      trigger's keys have changed. */
  lemma ConjunctionStep(t: Trigger, steps: seq<Params>, all: set<string>, start: Option<Params>)
    requires t.mode == Conjunction && t.keys != {} && FixedKeys(steps, all, t) && |steps| > 1
    requires var p := Prepared(t, steps[..|steps| - 1], all, true, start);
             p.Some? && p.value.Keys == all && Agree(p.value, steps[|steps| - 2], t.keys)
    ensures var p := Prepared(t, steps, all, true, start);
            var prev, last := steps[|steps| - 2], steps[|steps| - 1];
            p.Some? && p.value.Keys == all &&
            (Agree(p.value, last, t.keys)
             <==> Agree(prev, last, t.keys) || forall k :: k in t.keys ==> prev[k] != last[k])
  {
    DiffMeets(steps[|steps| - 2], steps[|steps| - 1], t.keys);
  }

  // ----- what a session finds on the remote machine -----

  /** The trigger that the experiment registers. */
  const RULES := Trigger(Disjunction, {"n_rules", "rgx_enabled", "rule_subset_ratio"})

  /** The parameters that the scripts of `precompile_rxpc` are rendered with. */
  const PRECOMPILE_KEYS := {"n_rules", "pattern_db", "rules_use_content_kw", "rules_use_pcre_kw",
                            "rules_patlen_greaterthan", "rgx_enabled", "hs_enabled", "fixed_seed"}

  /** `setup` removes the experiment's directory, and with it all rules that earlier sessions
      prepared. The precompile scripts then run side by side, so the rules that are there when the
      first run is about to begin are those of any one of them, or none. */
  ghost predicate SessionFinds(precompiled: seq<Params>, found: Option<Params>) {
    found.Some? ==> found.value in precompiled
  }

  /** A trigger sees only the keys that the experiment has. */
  function Restrict(t: Trigger, all: set<string>): Trigger {
    t.(keys := t.keys * all)
  }

  lemma {:induction false} PreparedRestricted(t: Trigger, steps: seq<Params>, all: set<string>, onBlank: bool,
                                              start: Option<Params>)
    requires t.mode == Disjunction && SameKeys(steps, all)
    ensures Prepared(t, steps, all, onBlank, start) == Prepared(Restrict(t, all), steps, all, onBlank, start)
  {
    if steps != [] {
      var diff := Diff(Before(steps), steps[|steps| - 1], onBlank);
      assert diff <= all;
      assert diff * t.keys == diff * (t.keys * all);
      PreparedRestricted(t, steps[..|steps| - 1], all, onBlank, start);
    }
  }

  /** When the current run of a session finds rules for its own values of the trigger keys that the
      experiment has. In a resumed session: when one of them has changed since the session began, or
      when the precompile script that ran last had the values of the session's first configuration,
      which needs an experiment without subset ratios. In a fresh session: always, if the experiment
      has a trigger key at all. */
  lemma {:induction false} RulesAfterResume(steps: seq<Params>, all: set<string>,
                                            precompiled: seq<Params>, found: Option<Params>)
    requires SameKeys(steps, all) && steps != []
    requires forall c :: c in precompiled ==> c.Keys == PRECOMPILE_KEYS
    requires SessionFinds(precompiled, found)
    ensures var u := Restrict(RULES, all);
            && (Serves(Prepared(RULES, steps, all, false, found), steps[|steps| - 1], u.keys)
                <==> Changes(steps, all, u) || ("rule_subset_ratio" !in all && Serves(found, steps[0], u.keys)))
            && (Serves(Prepared(RULES, steps, all, true, found), steps[|steps| - 1], u.keys)
                <==> u.keys != {} || found.Some?)
  {
    var u := Restrict(RULES, all);
    PreparedRestricted(RULES, steps, all, false, found);
    PreparedRestricted(RULES, steps, all, true, found);
    PreparedAfterResume(u, steps, all, found);
    if "rule_subset_ratio" in all {
      assert "rule_subset_ratio" in u.keys;
    }
    if u.keys != {} {
      AlwaysPrepared(u, steps, all, found);
    } else {
      NeverFires(u, steps, all, true, found);
    }
  }

  lemma {:induction false} NeverFires(t: Trigger, steps: seq<Params>, all: set<string>, onBlank: bool,
                                      start: Option<Params>)
    requires t.mode == Disjunction && t.keys == {} && SameKeys(steps, all)
    ensures Prepared(t, steps, all, onBlank, start) == start
  {
    if steps != [] {
      NeverFires(t, steps[..|steps| - 1], all, onBlank, start);
    }
  }

  /** The first run of a resumed experiment with subset ratios never has its own rules, */
  lemma FirstRunWithRatios(first: Params, precompiled: seq<Params>, found: Option<Params>)
    requires "rule_subset_ratio" in first
    requires (forall c :: c in precompiled ==> c.Keys == PRECOMPILE_KEYS) && SessionFinds(precompiled, found)
    ensures !Serves(Prepared(RULES, [first], first.Keys, false, found), first, Restrict(RULES, first.Keys).keys)
  {
    RulesAfterResume([first], first.Keys, precompiled, found);
  }

  /** and that of one without them has, when the last precompile script had its values. */
  lemma FirstRunWithoutRatios(first: Params, last: Params)
    requires "rule_subset_ratio" !in first && last.Keys == PRECOMPILE_KEYS
    ensures Serves(Prepared(RULES, [first], first.Keys, false, Some(last)), first, Restrict(RULES, first.Keys).keys)
            <==> Serves(Some(last), first, Restrict(RULES, first.Keys).keys)
    ensures var cfg := map k | k in PRECOMPILE_KEYS :: "1";
            Serves(Prepared(RULES, [cfg], cfg.Keys, false, Some(cfg)), cfg, Restrict(RULES, cfg.Keys).keys)
  {
    RulesAfterResume([first], first.Keys, [last], Some(last));
    var cfg := map k | k in PRECOMPILE_KEYS :: "1";
    RulesAfterResume([cfg], cfg.Keys, [cfg], Some(cfg));
  }
}
