/**
 The experiment engine: `ParameterHandler` of autotest/expelib.py with its queue and its saved
 state, and the run loop of autotest/exp_runner.py over any number of crashes and resumes.
 */
module Experiment {
  import opened Text
  import opened ParamPlan

  /** What `save_state` writes. A queue entry is a configuration, or None when an entry was saved
      before any configuration had been taken. */
  datatype Saved = Saved(started: bool, names: seq<string>, vals: seq<seq<string>>, queue: seq<Option<Config>>,
                         repeats: nat, left: int, popped: int, current: Option<Config>)

  function Entries(plan: seq<Config>): (q: seq<Option<Config>>)
    ensures |q| == |plan| && forall k :: 0 <= k < |q| ==> q[k] == Some(plan[k])
  {
    seq(|plan|, k requires 0 <= k < |plan| => Some(plan[k]))
  }

  class ParameterHandler {
    var repeats: nat
    var started: bool
    var names: seq<string>
    var vals: seq<seq<string>>
    var queue: seq<Option<Config>>
    var current: Option<Config>
    var filters: seq<Config -> bool>
    var filteredOut: nat
    var total: nat
    var left: int
    var popped: int

    constructor (params: seq<(string, seq<string>)>, repeats: nat)
      ensures !started && queue == [] && current == None && filters == [] && filteredOut == 0 && total == 0
      ensures this.repeats == repeats && |names| == |vals| == |params|
      ensures forall k :: 0 <= k < |params| ==> names[k] == params[k].0 && vals[k] == params[k].1
    {
      this.repeats, started, queue, current, filters := repeats, false, [], None, [];
      filteredOut, total, left, popped := 0, 0, 0, 0;
      names, vals := [], [];
      new;
      for k := 0 to |params|
        invariant !started && queue == [] && current == None && filters == [] && filteredOut == 0 && total == 0
        invariant this.repeats == repeats && |names| == |vals| == k
        invariant forall j :: 0 <= j < k ==> names[j] == params[j].0 && vals[j] == params[j].1
      {
        var ok := AddParam(params[k].0, params[k].1);
      }
    }

    /** Refused (a RuntimeError) once the experiment has been started. */
    method AddParam(name: string, values: seq<string>) returns (ok: bool)
      modifies this`names, this`vals
      ensures ok <==> !started
      ensures ok ==> names == old(names) + [name] && vals == old(vals) + [values]
      ensures !ok ==> names == old(names) && vals == old(vals)
    {
      if started {
        return false;
      }
      names, vals := names + [name], vals + [values];
      return true;
    }

    method AddParamFilter(f: Config -> bool) returns (ok: bool)
      modifies this`filters
      ensures ok <==> !started
      ensures filters == if ok then old(filters) + [f] else old(filters)
    {
      if started {
        return false;
      }
      filters := filters + [f];
      return true;
    }

    /** What one more combination adds to the plan. */
    static lemma NextTuple(names: seq<string>, tuples: seq<seq<string>>, k: nat, filters: seq<Config -> bool>, n: nat)
      requires Shaped(names, tuples) && k < |tuples|
      ensures Shaped(names, tuples[..k + 1])
      ensures var cfg := ConfigOf(names, tuples[k]);
              && PlanFor(names, tuples[..k + 1], filters, n)
                 == PlanFor(names, tuples[..k], filters, n) + (if Passes(filters, cfg) then Repeat(cfg, n) else [])
              && FilteredOut(names, tuples[..k + 1], filters)
                 == FilteredOut(names, tuples[..k], filters) + if Passes(filters, cfg) then 0 else 1
    {
      hide Passes, ConfigOf, Repeat;
      assert tuples[..k + 1][..k] == tuples[..k];
    }

    /** The loop of `_build_configs`: filters, then repetition. */
    method EnqueueAdmissible(tuples: seq<seq<string>>)
      requires queue == [] && filteredOut == 0 && Shaped(names, tuples)
      modifies this`queue, this`filteredOut
      ensures queue == Entries(PlanFor(names, tuples, filters, repeats))
      ensures filteredOut == FilteredOut(names, tuples, filters)
    {
      ghost var plan: seq<Config> := [];
      assert tuples[..0] == [] && tuples[..|tuples|] == tuples;
      assert Entries([]) == [] && PlanFor(names, [], filters, repeats) == [] && FilteredOut(names, [], filters) == 0;
      hide Passes, ConfigOf, PlanFor, FilteredOut, Entries, Repeat;
      for k := 0 to |tuples|
        invariant Shaped(names, tuples[..k])
        invariant plan == PlanFor(names, tuples[..k], filters, repeats) && queue == Entries(plan)
        invariant filteredOut == FilteredOut(names, tuples[..k], filters)
      {
        NextTuple(names, tuples, k, filters, repeats);
        var cfg := MakeConfig(tuples[k]);
        var skip := Refused(cfg);
        if skip {
          filteredOut := filteredOut + 1;
        } else {
          AppendCopies(cfg, plan);
          plan := plan + Repeat(cfg, repeats);
        }
      }
    }

    /** `_build_configs`: the product, and the counters of the plan made from it. */
    method BuildConfigs()
      requires |names| == |vals| && queue == [] && filteredOut == 0
      modifies this`queue, this`filteredOut, this`left, this`popped, this`total, this`started
      ensures queue == Entries(Plan(names, vals, filters, repeats))
      ensures started && left == total == |queue| && popped == 0
      ensures total == NbCombs(vals, repeats) - repeats * filteredOut
    {
      hide PlanFor, FilteredOut, Product, NbCombs;
      PlanSize(names, vals, filters, repeats);
      EnqueueAdmissible(Product(vals));
      left := |queue|;
      popped := 0;
      total := left;
      started := true;
    }

    method MakeConfig(t: seq<string>) returns (cfg: Config)
      requires |names| == |t|
      ensures cfg == ConfigOf(names, t)
    {
      cfg := map[];
      assert names[..0] == [];
      for i := 0 to |t|
        invariant cfg == ConfigOf(names[..i], t[..i])
      {
        assert names[..i + 1][..i] == names[..i] && t[..i + 1][..i] == t[..i];
        cfg := cfg[names[i] := t[i]];
      }
      assert names[..|t|] == names && t[..|t|] == t;
    }

    /** The filter loop asks every filter, also after one has refused. */
    method Refused(cfg: Config) returns (skip: bool)
      ensures skip <==> !Passes(filters, cfg)
    {
      skip := false;
      for i := 0 to |filters|
        invariant skip <==> exists k :: 0 <= k < i && !filters[k](cfg)
      {
        if !filters[i](cfg) {
          skip := true;
          continue;
        }
      }
    }

    method AppendCopies(cfg: Config, ghost plan: seq<Config>)
      requires queue == Entries(plan)
      modifies this`queue
      ensures queue == Entries(plan + Repeat(cfg, repeats))
    {
      assert plan + Repeat(cfg, 0) == plan;
      for i := 0 to repeats
        invariant queue == Entries(plan + Repeat(cfg, i))
      {
        queue := queue + [Some(cfg)];
      }
    }

    /** A handler that has not been started has not begun to build its queue either. */
    ghost predicate Startable()
      reads this
    {
      !started ==> |names| == |vals| && queue == [] && filteredOut == 0
    }

    /** The queue, left and popped counts as a caller sees them: before the start, those of the plan
        that will be built on demand. */
    ghost function Upcoming(): seq<Option<Config>>
      requires Startable()
      reads this
    {
      if started then queue else Entries(Plan(names, vals, filters, repeats))
    }

    ghost function Left(): int
      requires Startable()
      reads this
    {
      if started then left else |Upcoming()|
    }

    ghost function Popped(): int
      reads this
    {
      if started then popped else 0
    }

    method Start() returns (ok: bool)
      requires Startable()
      modifies this`queue, this`filteredOut, this`left, this`popped, this`total, this`started
      ensures ok <==> !old(started)
      ensures ok ==> started && queue == Entries(Plan(names, vals, filters, repeats))
      ensures ok ==> left == total == |queue| && popped == 0
      ensures ok ==> total == NbCombs(vals, repeats) - repeats * filteredOut
    {
      if started {
        return false;
      }
      BuildConfigs();
      return true;
    }

    /** The next configuration, or None when the queue is empty (or its head is None). Like the pop,
        it builds the queue first when the experiment has not been started. */
    method PeekParams() returns (cfg: Option<Config>)
      requires Startable()
      modifies this`queue, this`filteredOut, this`left, this`popped, this`total, this`started
      ensures started && queue == old(Upcoming()) && left == old(Left()) && popped == old(Popped())
      ensures cfg == if queue == [] then None else queue[0]
    {
      if !started {
        BuildConfigs();
      }
      cfg := if |queue| == 0 then None else queue[0];
    }

    method PopParams() returns (cfg: Option<Config>)
      requires Startable()
      modifies this`queue, this`filteredOut, this`left, this`popped, this`total, this`started, this`current
      ensures started
      ensures old(Upcoming()) == [] ==>
                cfg == None && queue == [] && left == old(Left()) && popped == old(Popped()) && current == old(current)
      ensures old(Upcoming()) != [] ==>
                && cfg == current == old(Upcoming())[0] && queue == old(Upcoming())[1..]
                && left == old(Left()) - 1 && popped == old(Popped()) + 1
    {
      if !started {
        BuildConfigs();
      }
      if |queue| == 0 {
        return None;
      }
      cfg := queue[0];
      queue := queue[1..];
      left := left - 1;
      popped := popped + 1;
      current := cfg;
    }

    method SaveState() returns (s: Saved)
      ensures s == Saved(started, names, vals, queue, repeats, left, popped, current)
    {
      s := Saved(started, names, vals, queue, repeats, left, popped, current);
    }

    /** `load_state`: the configuration that was current comes back at the head of the queue, the
        counters are taken over, totals and filters are not. */
    constructor Load(s: Saved)
      ensures started == s.started && names == s.names && vals == s.vals && repeats == s.repeats
      ensures queue == [s.current] + s.queue && current == None
      ensures left == s.left && popped == s.popped && total == 0 && filteredOut == 0 && filters == []
    {
      repeats, started, names, vals := s.repeats, s.started, s.names, s.vals;
      queue, current, filters := [s.current] + s.queue, None, [];
      filteredOut, total, left, popped := 0, 0, s.left, s.popped;
    }
  }

  const HASH_MODULUS := 15485863

  /** `__hash__`, for given hashes of names and value tuples; it sees names and values only. */
  function HashOf(names: seq<string>, vals: seq<seq<string>>,
                  hashName: string -> int, hashVals: seq<string> -> int): int
    requires |names| == |vals|
  {
    if names == [] then 0
    else
      var k := |names| - 1;
      (HashOf(names[..k], vals[..k], hashName, hashVals) + hashName(names[k]) + hashVals(vals[k])) % HASH_MODULUS
  }

  function HashSum(names: seq<string>, vals: seq<seq<string>>,
                   hashName: string -> int, hashVals: seq<string> -> int): int
    requires |names| == |vals|
  {
    if names == [] then 0
    else hashName(names[0]) + hashVals(vals[0]) + HashSum(names[1..], vals[1..], hashName, hashVals)
  }

  lemma {:induction false} HashSumSnoc(names: seq<string>, vals: seq<seq<string>>,
                                       hashName: string -> int, hashVals: seq<string> -> int)
    requires |names| == |vals| > 0
    ensures var k := |names| - 1;
            HashSum(names, vals, hashName, hashVals)
            == HashSum(names[..k], vals[..k], hashName, hashVals) + hashName(names[k]) + hashVals(vals[k])
  {
    var k := |names| - 1;
    if k == 0 {
      assert names[1..] == [] && vals[1..] == [] && names[..0] == [] && vals[..0] == [];
    } else {
      HashSumSnoc(names[1..], vals[1..], hashName, hashVals);
      assert names[1..][..k - 1] == names[..k][1..] && vals[1..][..k - 1] == vals[..k][1..];
    }
  }

  /** The hash is the sum of the hashes of all names and value tuples, below the modulus. */
  lemma {:induction false} HashIsSum(names: seq<string>, vals: seq<seq<string>>,
                                     hashName: string -> int, hashVals: seq<string> -> int)
    requires |names| == |vals|
    ensures HashOf(names, vals, hashName, hashVals) == HashSum(names, vals, hashName, hashVals) % HASH_MODULUS
  {
    if names != [] {
      var k := |names| - 1;
      HashIsSum(names[..k], vals[..k], hashName, hashVals);
      HashSumSnoc(names, vals, hashName, hashVals);
      ModAdds(HashSum(names[..k], vals[..k], hashName, hashVals), hashName(names[k]) + hashVals(vals[k]));
    }
  }

  lemma ModAdds(a: int, b: int)
    ensures (a % HASH_MODULUS + b) % HASH_MODULUS == (a + b) % HASH_MODULUS
  {
    var q := a / HASH_MODULUS;
    var r := (a % HASH_MODULUS + b) / HASH_MODULUS;
    assert a + b == HASH_MODULUS * (q + r) + (a % HASH_MODULUS + b) % HASH_MODULUS;
  }

  // ----- sessions: start or resume, run some configurations, crash -----

  /** Where a session dies after its completed configurations: between two of them, while the next
      one runs, after recording the next one and before saving the state, or while saving it. */
  datatype Crash = BetweenRuns | WhileRunning | BeforeSave | WhileSaving

  datatype Session = Session(completes: nat, crash: Crash)

  /** Position k of a plan on disk: k configurations are finished and saved, `resumes` times the
      state was loaded on the way. */
  function SavedAt(plan: seq<Config>, names: seq<string>, vals: seq<seq<string>>,
                   repeats: nat, k: nat, resumes: nat): Saved
    requires 0 < k <= |plan|
  {
    Saved(true, names, vals, Entries(plan[k..]), repeats, |plan| - k - resumes, k + resumes, Some(plan[k - 1]))
  }

  /** The save file. It is emptied before it is written, so dying in between leaves no readable
      state behind, neither the new one nor the old one. */
  datatype Disk = Absent | Whole(state: Saved) | Torn

  /** How far the last save that came to its end got, how often a state was loaded on the way, and
      whether a later save was cut off. */
  datatype Progress = Progress(saved: nat, resumes: nat, torn: bool)

  function StartOf(p: Progress): nat {
    if p.saved == 0 then 0 else p.saved - 1
  }

  function Completed(n: nat, p: Progress, s: Session): nat
    requires p.saved <= n
  {
    if s.completes < n - StartOf(p) then s.completes else n - StartOf(p)
  }

  /** Something is left to run when the session dies. */
  predicate DiesEarly(n: nat, p: Progress, s: Session)
    requires p.saved <= n
  {
    StartOf(p) + Completed(n, p, s) < n
  }

  function After(n: nat, p: Progress, s: Session): (p': Progress)
    requires p.saved <= n
    ensures p.saved <= p'.saved <= n
  {
    if p.torn then p
    else
      var m := Completed(n, p, s);
      var torn := s.crash.WhileSaving? && DiesEarly(n, p, s);
      if m == 0 then p.(torn := torn)
      else Progress(StartOf(p) + m, Resumes(p), torn)
  }

  /** The plan positions of the configurations a session records, in order. A session that cannot
      read the state ends at once. */
  function Recorded(n: nat, p: Progress, s: Session): (ks: seq<nat>)
    requires p.saved <= n
    ensures forall i :: 0 <= i < |ks| ==> ks[i] == StartOf(p) + i && ks[i] < n
  {
    var m := Completed(n, p, s);
    var extra := if (s.crash.BeforeSave? || s.crash.WhileSaving?) && DiesEarly(n, p, s) then 1 else 0;
    seq<nat>(if p.torn then 0 else m + extra, i requires 0 <= i => StartOf(p) + i)
  }

  function OnDisk(plan: seq<Config>, names: seq<string>, vals: seq<seq<string>>, repeats: nat, p: Progress): Disk
    requires p.saved <= |plan|
  {
    if p.torn then Torn
    else if p.saved == 0 then Absent
    else Whole(SavedAt(plan, names, vals, repeats, p.saved, p.resumes))
  }

  function At(plan: seq<Config>, ks: seq<nat>): (cs: seq<Config>)
    requires forall i :: 0 <= i < |ks| ==> ks[i] < |plan|
    ensures |cs| == |ks|
  {
    seq(|ks|, i requires 0 <= i < |ks| => plan[ks[i]])
  }

  /** How often the state had been loaded when a session has begun. */
  function Resumes(p: Progress): nat {
    p.resumes + if p.saved == 0 then 0 else 1
  }

  /** The handler is about to give out position k of the plan. */
  ghost predicate About(h: ParameterHandler, plan: seq<Config>, names: seq<string>, vals: seq<seq<string>>,
                        repeats: nat, k: nat, resumes: nat)
    reads h
  {
    && k <= |plan| && h.started && h.names == names && h.vals == vals && h.repeats == repeats
    && h.queue == Entries(plan[k..])
    && h.popped == k + resumes && h.left == |plan| - h.popped
  }

  /** The first part of `main` in autotest/exp_runner.py on an unchanged experiment: take over the
      saved state when there is one with the hash of the given parameters, start afresh otherwise.
      A state that cannot be read raises an error, and there is no handler. */
  method Begin(params: seq<(string, seq<string>)>, filters: seq<Config -> bool>, repeats: nat,
               hashName: string -> int, hashVals: seq<string> -> int,
               disk: Disk, ghost plan: seq<Config>, ghost p: Progress)
    returns (h: ParameterHandler?)
    requires plan == Plan(Names(params), Values(params), filters, repeats) && p.saved <= |plan|
    requires disk == OnDisk(plan, Names(params), Values(params), repeats, p)
    requires p.saved == 0 ==> p.resumes == 0
    ensures h == null <==> p.torn
    ensures h != null ==> fresh(h) && About(h, plan, Names(params), Values(params), repeats, StartOf(p), Resumes(p))
  {
    if disk.Torn? {
      return null;
    }
    h := NewHandler(params, filters, repeats);
    QueueAtStart(plan, p);
    if disk.Whole? {
      var loaded := new ParameterHandler.Load(disk.state);
      if HashOf(loaded.names, loaded.vals, hashName, hashVals) == HashOf(h.names, h.vals, hashName, hashVals) {
        h := loaded;
        return;
      }
      assert false;
    }
    var ok := h.Start();
  }

  method NewHandler(params: seq<(string, seq<string>)>, filters: seq<Config -> bool>, repeats: nat)
    returns (h: ParameterHandler)
    ensures fresh(h) && !h.started && h.queue == [] && h.filteredOut == 0 && h.filters == filters
    ensures h.names == Names(params) && h.vals == Values(params) && h.repeats == repeats
  {
    h := new ParameterHandler(params, repeats);
    assert h.names == Names(params) && h.vals == Values(params);
    for k := 0 to |filters|
      invariant fresh(h) && !h.started && h.queue == [] && h.filteredOut == 0 && h.filters == filters[..k]
      invariant h.names == Names(params) && h.vals == Values(params) && h.repeats == repeats
    {
      var ok := h.AddParamFilter(filters[k]);
    }
    assert filters[..|filters|] == filters;
  }

  /** The run loop of `main` for at most `completes` configurations: pop, run, record, save. */
  method CompleteSome(h: ParameterHandler, disk: Disk, completes: nat,
                      ghost plan: seq<Config>, ghost names: seq<string>, ghost vals: seq<seq<string>>,
                      ghost start: nat, ghost resumes: nat)
    returns (disk': Disk, records: seq<Config>, m: nat, next: Option<Config>)
    requires About(h, plan, names, vals, h.repeats, start, resumes)
    modifies h
    ensures m == if completes < |plan| - start then completes else |plan| - start
    ensures About(h, plan, names, vals, old(h.repeats), start + m, resumes)
    ensures records == plan[start..start + m]
    ensures next == if start + m == |plan| then None else Some(plan[start + m])
    ensures disk' == if m == 0 then disk else Whole(SavedAt(plan, names, vals, old(h.repeats), start + m, resumes))
  {
    hide SavedAt, Entries;
    ghost var repeats := h.repeats;
    disk', records, m := disk, [], 0;
    next := Next(h, plan, names, vals, repeats, start, resumes);
    while next != None && m < completes
      invariant m <= completes && start + m <= |plan|
      invariant About(h, plan, names, vals, repeats, start + m, resumes)
      invariant records == plan[start..start + m]
      invariant next == if start + m == |plan| then None else Some(plan[start + m])
      invariant disk' == if m == 0 then disk else Whole(SavedAt(plan, names, vals, repeats, start + m, resumes))
      decreases completes - m
    {
      var cfg;
      cfg, disk' := RunAndSave(h, plan, names, vals, repeats, start + m, resumes);
      records := records + [cfg];
      m := m + 1;
      next := Next(h, plan, names, vals, repeats, start + m, resumes);
    }
  }

  /** The rest of `main`: run configurations until the queue is empty or the process dies. */
  method RunLoop(h: ParameterHandler, disk: Disk, s: Session,
                 ghost plan: seq<Config>, ghost names: seq<string>, ghost vals: seq<seq<string>>, ghost p: Progress)
    returns (disk': Disk, records: seq<Config>)
    requires !p.torn && p.saved <= |plan| && disk == OnDisk(plan, names, vals, h.repeats, p)
    requires About(h, plan, names, vals, h.repeats, StartOf(p), Resumes(p))
    modifies h
    ensures disk' == OnDisk(plan, names, vals, old(h.repeats), After(|plan|, p, s))
    ensures records == At(plan, Recorded(|plan|, p, s))
  {
    hide SavedAt, OnDisk, Recorded, At, After, About;
    ghost var repeats := h.repeats;
    DiskAfter(plan, names, vals, repeats, p, s);
    RecordedSlice(plan, p, s);
    var m, next;
    disk', records, m, next := CompleteSome(h, disk, s.completes, plan, names, vals, StartOf(p), Resumes(p));
    assert m == Completed(|plan|, p, s);
    if next != None && s.crash != BetweenRuns {
      var cfg := Take(h, plan, names, vals, repeats, StartOf(p) + m, Resumes(p));
      if s.crash == BeforeSave {
        records := records + [cfg];
      } else if s.crash == WhileSaving {
        records := records + [cfg];
        disk' := Torn;
      }
    }
  }

  lemma DiskAfter(plan: seq<Config>, names: seq<string>, vals: seq<seq<string>>, repeats: nat, p: Progress, s: Session)
    requires p.saved <= |plan| && !p.torn
    ensures var m := Completed(|plan|, p, s);
            OnDisk(plan, names, vals, repeats, After(|plan|, p, s)) ==
            if s.crash.WhileSaving? && DiesEarly(|plan|, p, s) then Torn
            else if m == 0 then OnDisk(plan, names, vals, repeats, p)
            else Whole(SavedAt(plan, names, vals, repeats, StartOf(p) + m, Resumes(p)))
  {
  }

  lemma RecordedSlice(plan: seq<Config>, p: Progress, s: Session)
    requires p.saved <= |plan| && !p.torn
    ensures var m := Completed(|plan|, p, s);
            var extra := if (s.crash.BeforeSave? || s.crash.WhileSaving?) && DiesEarly(|plan|, p, s) then 1 else 0;
            var hi := StartOf(p) + m + extra;
            At(plan, Recorded(|plan|, p, s)) == plan[StartOf(p)..hi]
  {
  }

  method Next(h: ParameterHandler, ghost plan: seq<Config>, ghost names: seq<string>, ghost vals: seq<seq<string>>,
              ghost repeats: nat, ghost k: nat, ghost resumes: nat) returns (next: Option<Config>)
    requires About(h, plan, names, vals, repeats, k, resumes)
    modifies h
    ensures About(h, plan, names, vals, repeats, k, resumes)
    ensures next == if k == |plan| then None else Some(plan[k])
  {
    next := h.PeekParams();
  }

  method Take(h: ParameterHandler, ghost plan: seq<Config>, ghost names: seq<string>, ghost vals: seq<seq<string>>,
              ghost repeats: nat, ghost k: nat, ghost resumes: nat) returns (cfg: Config)
    requires About(h, plan, names, vals, repeats, k, resumes) && k < |plan|
    modifies h
    ensures About(h, plan, names, vals, repeats, k + 1, resumes)
    ensures cfg == plan[k] && h.current == Some(cfg)
  {
    SliceStep(plan, k);
    var popped := h.PopParams();
    cfg := popped.value;
  }

  /** One completed configuration: popped, run until valid, recorded, and the state saved. */
  method RunAndSave(h: ParameterHandler,
                    ghost plan: seq<Config>, ghost names: seq<string>, ghost vals: seq<seq<string>>,
                    ghost repeats: nat, ghost k: nat, ghost resumes: nat)
    returns (cfg: Config, disk: Disk)
    requires About(h, plan, names, vals, repeats, k, resumes) && k < |plan|
    modifies h
    ensures About(h, plan, names, vals, repeats, k + 1, resumes)
    ensures cfg == plan[k] && disk == Whole(SavedAt(plan, names, vals, repeats, k + 1, resumes))
  {
    cfg := Take(h, plan, names, vals, repeats, k, resumes);
    var saved := h.SaveState();
    disk := Whole(saved);
  }

  lemma SliceStep(plan: seq<Config>, k: nat)
    requires k < |plan|
    ensures Entries(plan[k..]) == [Some(plan[k])] + Entries(plan[k + 1..])
  {
  }

  /** One life of `main` on an unchanged experiment. */
  method RunSession(params: seq<(string, seq<string>)>, filters: seq<Config -> bool>, repeats: nat,
                    hashName: string -> int, hashVals: seq<string> -> int,
                    disk: Disk, s: Session, ghost plan: seq<Config>, ghost p: Progress)
    returns (disk': Disk, records: seq<Config>)
    requires plan == Plan(Names(params), Values(params), filters, repeats) && p.saved <= |plan|
    requires disk == OnDisk(plan, Names(params), Values(params), repeats, p)
    requires p.saved == 0 ==> p.resumes == 0
    ensures disk' == OnDisk(plan, Names(params), Values(params), repeats, After(|plan|, p, s))
    ensures records == At(plan, Recorded(|plan|, p, s))
  {
    var h := Begin(params, filters, repeats, hashName, hashVals, disk, plan, p);
    if h == null {
      return disk, [];
    }
    disk', records := RunLoop(h, disk, s, plan, Names(params), Values(params), p);
  }

  function Names(params: seq<(string, seq<string>)>): (names: seq<string>)
    ensures |names| == |params|
  {
    seq(|params|, k requires 0 <= k < |params| => params[k].0)
  }

  function Values(params: seq<(string, seq<string>)>): (vals: seq<seq<string>>)
    ensures |vals| == |params|
  {
    seq(|params|, k requires 0 <= k < |params| => params[k].1)
  }

  /** What a start or a load puts into the queue: the plan from the session's first position. */
  lemma QueueAtStart(plan: seq<Config>, p: Progress)
    requires p.saved <= |plan|
    ensures p.saved == 0 ==> Entries(plan) == Entries(plan[StartOf(p)..])
    ensures p.saved > 0 ==> [Some(plan[p.saved - 1])] + Entries(plan[p.saved..]) == Entries(plan[StartOf(p)..])
  {
    assert plan[0..] == plan;
  }

  // ----- any number of sessions -----

  function ProgressAfter(n: nat, sessions: seq<Session>): (p: Progress)
    ensures p.saved <= n && (p.saved == 0 ==> p.resumes == 0)
  {
    if sessions == [] then Progress(0, 0, false)
    else After(n, ProgressAfter(n, sessions[..|sessions| - 1]), sessions[|sessions| - 1])
  }

  /** The plan positions recorded by all sessions, in order. */
  function Log(n: nat, sessions: seq<Session>): seq<nat> {
    if sessions == [] then []
    else
      var init := sessions[..|sessions| - 1];
      Log(n, init) + Recorded(n, ProgressAfter(n, init), sessions[|sessions| - 1])
  }

  /** Whatever the crashes, every configuration before the saved position has been recorded, and
      nothing beyond the plan ever is. */
  lemma {:induction false} NothingSkipped(n: nat, sessions: seq<Session>)
    ensures forall k :: 0 <= k < ProgressAfter(n, sessions).saved ==> k in Log(n, sessions)
    ensures forall k :: k in Log(n, sessions) ==> k < n
  {
    if sessions != [] {
      var init, s := sessions[..|sessions| - 1], sessions[|sessions| - 1];
      NothingSkipped(n, init);
      var p := ProgressAfter(n, init);
      var ks := Recorded(n, p, s);
      forall k | 0 <= k < After(n, p, s).saved
        ensures k in Log(n, sessions)
      {
        if k >= p.saved {
          assert ks[k - StartOf(p)] == k;
        }
      }
    }
  }

  /** No configuration is recorded, in any session, before every configuration ahead of it in the
      plan has been: the log never skips forward. */
  lemma {:induction false} InPlanOrder(n: nat, sessions: seq<Session>, i: nat, k: nat)
    requires i < |Log(n, sessions)| && k < Log(n, sessions)[i]
    ensures k in Log(n, sessions)[..i]
  {
    var init, s := sessions[..|sessions| - 1], sessions[|sessions| - 1];
    var before, log := Log(n, init), Log(n, sessions);
    if i < |before| {
      InPlanOrder(n, init, i, k);
      assert log[..i] == before[..i];
    } else {
      var p := ProgressAfter(n, init);
      var ks := Recorded(n, p, s);
      assert log[i] == ks[i - |before|];
      if k < StartOf(p) {
        NothingSkipped(n, init);
        assert log[..|before|] == before && k in before;
        var j :| 0 <= j < |before| && before[j] == k;
        assert log[..i][j] == k;
      } else {
        var j := |before| + (k - StartOf(p));
        assert log[..i][j] == ks[k - StartOf(p)] == k;
      }
    }
  }

  /** A fresh session makes progress when it completes one configuration, a resumed one only when
      it completes two: the first it is given is the last saved one again. */
  lemma ProgressNeedsTwo(n: nat, p: Progress, s: Session)
    requires p.saved <= n
    ensures After(n, p, s).saved > p.saved
            <==> !p.torn && p.saved < n && s.completes >= if p.saved == 0 then 1 else 2
  {
  }

  /** Session i dies while it saves. */
  predicate Tears(n: nat, sessions: seq<Session>, i: nat)
    requires i < |sessions|
  {
    sessions[i].crash.WhileSaving? && DiesEarly(n, ProgressAfter(n, sessions[..i]), sessions[i])
  }

  /** The state is lost exactly when some session died while saving it. */
  lemma {:induction false} TornByDeath(n: nat, sessions: seq<Session>)
    ensures ProgressAfter(n, sessions).torn <==> exists i :: 0 <= i < |sessions| && Tears(n, sessions, i)
  {
    hide DiesEarly;
    if sessions != [] {
      var k := |sessions| - 1;
      var init := sessions[..k];
      TornByDeath(n, init);
      forall i | 0 <= i < k
        ensures Tears(n, init, i) <==> Tears(n, sessions, i)
      {
        assert init[..i] == sessions[..i];
      }
      assert sessions[..k] == init;
      assert ProgressAfter(n, sessions).torn <==> ProgressAfter(n, init).torn || Tears(n, sessions, k);
    }
  }

  /** Resuming can finish the experiment exactly as long as the state is not lost; once it is, no
      later session records anything. */
  lemma {:induction false} CanBeFinished(n: nat, sessions: seq<Session>, more: seq<Session>)
    requires ProgressAfter(n, sessions).saved < n
    ensures ProgressAfter(n, sessions + [Session(n, BetweenRuns)]).saved == n <==> !ProgressAfter(n, sessions).torn
    ensures ProgressAfter(n, sessions).torn ==>
              ProgressAfter(n, sessions + more).torn && Log(n, sessions + more) == Log(n, sessions)
    decreases |more|
  {
    assert (sessions + [Session(n, BetweenRuns)])[..|sessions|] == sessions;
    if more == [] {
      assert sessions + more == sessions;
    } else {
      var init := more[..|more| - 1];
      CanBeFinished(n, sessions, init);
      assert (sessions + more)[..|sessions + more| - 1] == sessions + init;
    }
  }

  /** After a load, left and popped keep their sum, the size of the plan, while the queue is longer
      than `left` by one for this load and one for each earlier one; so `left` can go below zero. */
  lemma LoadedCounters(plan: seq<Config>, names: seq<string>, vals: seq<seq<string>>,
                       repeats: nat, k: nat, resumes: nat)
    requires 0 < k <= |plan|
    ensures var s := SavedAt(plan, names, vals, repeats, k, resumes);
            && s.left + s.popped == |plan|
            && |[s.current] + s.queue| == s.left + resumes + 1
            && (s.left < 0 <==> k + resumes > |plan|)
  {
  }
}
