/**
 `filter_rxpc` of data/rule_lib.py and the loop `full_rxpc_filter` of data/rule_sampler.py: the
 patterns of a rule file are numbered and handed to a compiler, and the rules of rejected
 patterns are dropped, over and over until the compiler rejects nothing. Rules are given parsed,
 and the compiler is an arbitrary function from numbered patterns to rejected numbers.
 */
module RxpcFilter {
  import opened Text
  import opened ContentRegex

  datatype Result<+T> = Ok(value: T) | KeyError

  datatype Rule = Rule(sid: string, contents: seq<string>, pcres: seq<string>)

  datatype Config = Config(includePcres: bool, includeLiterals: bool, maxRules: nat)

  /** What the compiler leaves behind: the rule ids in its log, and the count in its summary. */
  datatype Compiler = Compiler(rejects: seq<string> -> set<nat>, summary: seq<string> -> nat)

  /** Log and summary agree on whether anything was rejected. */
  ghost predicate Agrees(c: Compiler) {
    forall ps: seq<string> :: c.summary(ps) > 0 <==> c.rejects(ps) != {}
  }

  // ----- the patterns of one rule -----

  predicate Negated(content: string) {
    StartsWith(content, "!")
  }

  /** A pcre must end in one of the modifiers the compiler knows. */
  predicate LegalPcre(pcre: string) {
    var stripped := Strip(Unquote(pcre));
    EndsWith(stripped, "/i") || EndsWith(stripped, "/m") || EndsWith(stripped, "/s") || EndsWith(stripped, "/x")
  }

  /** The expressions of the contents before the first negated one. */
  function ContentTexts(contents: seq<string>): seq<string> {
    if contents == [] || Negated(contents[0]) then []
    else [Compile(Unquote(contents[0]))] + ContentTexts(contents[1..])
  }

  /** The pcres before the first illegal one. */
  function PcreTexts(pcres: seq<string>): seq<string> {
    if pcres == [] || !LegalPcre(pcres[0]) then []
    else [Unquote(pcres[0])] + PcreTexts(pcres[1..])
  }

  predicate HasNegated(contents: seq<string>) {
    exists k :: 0 <= k < |contents| && Negated(contents[k])
  }

  predicate HasIllegalPcre(pcres: seq<string>) {
    exists k :: 0 <= k < |pcres| && !LegalPcre(pcres[k])
  }

  function TextsOf(r: Rule, cfg: Config): seq<string> {
    (if cfg.includeLiterals then ContentTexts(r.contents) else []) +
    (if cfg.includePcres then PcreTexts(r.pcres) else [])
  }

  predicate Illegal(r: Rule, cfg: Config) {
    (cfg.includeLiterals && HasNegated(r.contents)) || (cfg.includePcres && HasIllegalPcre(r.pcres))
  }

  method EmitContents(contents: seq<string>) returns (texts: seq<string>, illegal: bool)
    ensures texts == ContentTexts(contents) && illegal == HasNegated(contents)
  {
    texts, illegal := [], false;
    assert contents[0..] == contents;
    for k := 0 to |contents|
      invariant texts + ContentTexts(contents[k..]) == ContentTexts(contents)
      invariant !illegal && forall j :: 0 <= j < k ==> !Negated(contents[j])
    {
      assert contents[k..][0] == contents[k] && contents[k..][1..] == contents[k + 1..];
      if Negated(contents[k]) {
        illegal := true;
        return;
      }
      var regex := SuricataContentToRegex(Unquote(contents[k]));
      texts := texts + [regex];
    }
  }

  lemma NextPcre(pcres: seq<string>, k: nat)
    requires k <= |pcres|
    ensures k == |pcres| || !LegalPcre(pcres[k]) ==> PcreTexts(pcres[k..]) == []
    ensures k < |pcres| && LegalPcre(pcres[k]) ==>
              PcreTexts(pcres[k..]) == [Unquote(pcres[k])] + PcreTexts(pcres[k + 1..])
  {
    hide LegalPcre;
    if k < |pcres| {
      assert pcres[k..][0] == pcres[k] && pcres[k..][1..] == pcres[k + 1..];
    }
  }

  method EmitPcres(pcres: seq<string>) returns (texts: seq<string>, illegal: bool)
    ensures texts == PcreTexts(pcres) && illegal == HasIllegalPcre(pcres)
  {
    hide LegalPcre, PcreTexts;
    texts, illegal := [], false;
    assert pcres[0..] == pcres;
    for k := 0 to |pcres|
      invariant texts + PcreTexts(pcres[k..]) == PcreTexts(pcres)
      invariant !illegal && forall j :: 0 <= j < k ==> LegalPcre(pcres[j])
    {
      NextPcre(pcres, k);
      if !LegalPcre(pcres[k]) {
        illegal := true;
        return;
      }
      texts := texts + [Unquote(pcres[k])];
    }
    NextPcre(pcres, |pcres|);
  }

  /** A rule without negated contents and illegal pcres has all its patterns emitted. */
  lemma {:induction false} LegalContentsAllEmitted(contents: seq<string>)
    requires !HasNegated(contents)
    ensures |ContentTexts(contents)| == |contents|
    ensures forall k :: 0 <= k < |contents| ==> ContentTexts(contents)[k] == Compile(Unquote(contents[k]))
  {
    if contents != [] {
      assert forall j :: 0 <= j < |contents| - 1 ==> contents[1..][j] == contents[j + 1];
      LegalContentsAllEmitted(contents[1..]);
    }
  }

  lemma {:induction false} LegalPcresAllEmitted(pcres: seq<string>)
    requires !HasIllegalPcre(pcres)
    ensures |PcreTexts(pcres)| == |pcres|
    ensures forall k :: 0 <= k < |pcres| ==> PcreTexts(pcres)[k] == Unquote(pcres[k])
  {
    hide LegalPcre;
    if pcres != [] {
      assert forall j :: 0 <= j < |pcres| - 1 ==> pcres[1..][j] == pcres[j + 1];
      LegalPcresAllEmitted(pcres[1..]);
    }
  }

  // ----- what is emitted, in terms of the rule's text -----

  lemma NegatedIs(content: string)
    ensures Negated(content) <==> exists t :: content == "!" + t
  {
    StartsWithIs(content, "!");
  }

  /** Every quoted content before the first negated one gives an expression that matches exactly the
      bytes that it denotes, if it is well-formed and has no backslash. */
  lemma {:induction false} EmittedContent(contents: seq<string>, k: nat, c: string)
    requires k < |contents| && forall j :: 0 <= j <= k ==> !Negated(contents[j])
    requires contents[k] == Quoted(c) && Denote(c).Some? && '\\' !in c
    ensures k < |ContentTexts(contents)| && MatchesOnly(ContentTexts(contents)[k], Denote(c).value)
  {
    hide Negated, MatchesOnly, Denote;
    if k == 0 {
      UnquoteIs(contents[0]);
      CompilePreservesMeaning(c);
    } else {
      EmittedContent(contents[1..], k - 1, c);
    }
  }

  /** Every pcre before the first illegal one is emitted: what is between its quotes, or all of it when
      it is not quoted. */
  lemma {:induction false} EmittedPcre(pcres: seq<string>, k: nat)
    requires k < |pcres| && forall j :: 0 <= j <= k ==> LegalPcre(pcres[j])
    ensures k < |PcreTexts(pcres)|
    ensures forall p :: pcres[k] == Quoted(p) ==> PcreTexts(pcres)[k] == p
    ensures (forall p :: pcres[k] != Quoted(p)) ==> PcreTexts(pcres)[k] == pcres[k]
  {
    hide LegalPcre;
    if k == 0 {
      UnquoteIs(pcres[0]);
    } else {
      EmittedPcre(pcres[1..], k - 1);
    }
  }

  /** A pcre is legal when a slash and one of the four modifiers end it, up to blanks. */
  lemma LegalPcreIs(pcre: string)
    ensures LegalPcre(pcre) <==> exists a, m, b :: Unquote(pcre) == a + ['/', m] + b && m in "imsx" && Blank(b)
  {
    var u := Unquote(pcre);
    var t := Strip(u);
    var x, y := StripIs(u);
    if LegalPcre(pcre) {
      var n := |t|;
      var m := t[n - 1];
      assert t[n - 2..] == ['/', m];
      assert u == (x + t[..n - 2]) + ['/', m] + y;
      assert m in "imsx";
    }
    if a, m, b :| u == a + ['/', m] + b && m in "imsx" && Blank(b) {
      EndStripped(a, m, b);
      assert t[|t| - 2..] == ['/', m];
      assert m == 'i' || m == 'm' || m == 's' || m == 'x';
    }
  }

  lemma {:induction false} RightStripped(s: string, b: string)
    requires s != "" && !IsSpace(s[|s| - 1]) && Blank(b)
    ensures StripRight(s + b) == s
  {
    if b == "" {
      assert s + b == s;
    } else {
      assert (s + b)[..|s + b| - 1] == s + b[..|b| - 1];
      RightStripped(s, b[..|b| - 1]);
    }
  }

  lemma {:induction false} LeftKeepsEnd(a: string, m: char)
    requires !IsSpace(m)
    ensures var t := StripLeft(a + ['/', m]); |t| >= 2 && t[|t| - 2..] == ['/', m]
  {
    var s := a + ['/', m];
    if a != "" && IsSpace(a[0]) {
      assert s[1..] == a[1..] + ['/', m];
      LeftKeepsEnd(a[1..], m);
    }
  }

  lemma EndStripped(a: string, m: char, b: string)
    requires m in "imsx" && Blank(b)
    ensures var t := Strip(a + ['/', m] + b); |t| >= 2 && t[|t| - 2..] == ['/', m]
  {
    RightStripped(a + ['/', m], b);
    LeftKeepsEnd(a, m);
  }

  // ----- one filter run -----

  /** How many rules are scanned before the pattern counter reaches the limit. */
  function Scanned(rules: seq<Rule>, i: nat, cfg: Config): (m: nat)
    ensures m <= |rules|
  {
    if rules == [] || i >= cfg.maxRules then 0
    else 1 + Scanned(rules[1..], i + |TextsOf(rules[0], cfg)|, cfg)
  }

  /** The patterns of some rules, in order. */
  function Texts(rules: seq<Rule>, cfg: Config): seq<string> {
    if rules == [] then [] else Texts(rules[..|rules| - 1], cfg) + TextsOf(rules[|rules| - 1], cfg)
  }

  /** For each pattern the sid of the rule it comes from. */
  function Owners(rules: seq<Rule>, cfg: Config): (sids: seq<string>)
    ensures |sids| == |Texts(rules, cfg)|
  {
    if rules == [] then []
    else
      var r := rules[|rules| - 1];
      Owners(rules[..|rules| - 1], cfg) + Repeat(r.sid, |TextsOf(r, cfg)|)
  }

  function Sids(rules: seq<Rule>): set<string> {
    if rules == [] then {} else Sids(rules[..|rules| - 1]) + {rules[|rules| - 1].sid}
  }

  function IllegalSids(rules: seq<Rule>, cfg: Config): set<string> {
    if rules == [] then {}
    else
      var r := rules[|rules| - 1];
      IllegalSids(rules[..|rules| - 1], cfg) + if Illegal(r, cfg) then {r.sid} else {}
  }

  function KeepSids(rules: seq<Rule>, sids: set<string>): seq<Rule> {
    if rules == [] then []
    else (if rules[0].sid in sids then [rules[0]] else []) + KeepSids(rules[1..], sids)
  }

  /** The rules that a run looks at. */
  function Head(db: seq<Rule>, cfg: Config): seq<Rule> {
    db[..Scanned(db, 1, cfg)]
  }

  /** The sids of the rejected patterns. */
  function RejectedSids(owners: seq<string>, rejected: set<nat>): set<string> {
    set i | i in rejected && 1 <= i <= |owners| :: owners[i - 1]
  }

  /** The sids that survive a run in which the compiler rejected `rejected`. */
  function Survivors(db: seq<Rule>, cfg: Config, rejected: set<nat>): set<string> {
    var head := Head(db, cfg);
    Sids(head) - (IllegalSids(head, cfg) + RejectedSids(Owners(head, cfg), rejected))
  }

  predicate InRange(rejected: set<nat>, n: nat) {
    forall i :: i in rejected ==> 1 <= i <= n
  }

  /** Emitted ids are exactly 1..n, in the order of the patterns, and each id maps to the sid of
      the rule its pattern comes from. */
  ghost predicate Numbered(inRgxs: seq<(nat, string)>, id2sid: map<nat, string>,
                           texts: seq<string>, owners: seq<string>)
  {
    && |inRgxs| == |texts| == |owners|
    && (forall k :: 0 <= k < |texts| ==> inRgxs[k] == (k + 1, texts[k]))
    && (forall i: nat :: i in id2sid <==> 1 <= i <= |texts|)
    && (forall i: nat :: i in id2sid ==> id2sid[i] == owners[i - 1])
  }

  /** The variables of the first loop of `filter_rxpc`. */
  datatype Scan = Scan(i: nat, inRgxs: seq<(nat, string)>, id2sid: map<nat, string>,
                       excluded: set<string>, initial: set<string>)

  ghost predicate ScannedTo(db: seq<Rule>, cfg: Config, m: nat, s: Scan)
    requires m <= |db|
  {
    && s.i == 1 + |Texts(db[..m], cfg)|
    && Scanned(db, 1, cfg) == m + Scanned(db[m..], s.i, cfg)
    && Numbered(s.inRgxs, s.id2sid, Texts(db[..m], cfg), Owners(db[..m], cfg))
    && s.initial == Sids(db[..m]) && s.excluded == IllegalSids(db[..m], cfg)
  }

  /** The first loop of `filter_rxpc`. */
  method NumberPatterns(db: seq<Rule>, cfg: Config) returns (s: Scan)
    ensures var head := Head(db, cfg);
            && Numbered(s.inRgxs, s.id2sid, Texts(head, cfg), Owners(head, cfg))
            && s.initial == Sids(head) && s.excluded == IllegalSids(head, cfg)
  {
    s := Scan(1, [], map[], {}, {});
    var m := 0;
    assert ScannedTo(db, cfg, 0, s) by {
      assert db[0..] == db && db[..0] == [];
    }
    while m < |db| && s.i < cfg.maxRules
      invariant m <= |db| && ScannedTo(db, cfg, m, s)
    {
      hide ScannedTo;
      s := ScanRule(db, cfg, m, s);
      m := m + 1;
    }
  }

  /** One pass of that loop. */
  method ScanRule(db: seq<Rule>, cfg: Config, m: nat, s: Scan) returns (s': Scan)
    requires m < |db| && s.i < cfg.maxRules && ScannedTo(db, cfg, m, s)
    ensures ScannedTo(db, cfg, m + 1, s')
  {
    hide Texts, Owners, TextsOf, Numbered, Illegal, Sids, IllegalSids, Repeat, Scanned;
    var r := db[m];
    ScanOne(db, m, s.i, cfg);
    HeadGrows(db, m, cfg);
    var texts, illegal := EmitRule(r, cfg);
    var inRgxs, id2sid, i :=
      AppendPatterns(s.inRgxs, s.id2sid, s.i, texts, r.sid, Texts(db[..m], cfg), Owners(db[..m], cfg));
    s' := Scan(i, inRgxs, id2sid, if illegal then s.excluded + {r.sid} else s.excluded, s.initial + {r.sid});
  }

  method EmitRule(r: Rule, cfg: Config) returns (texts: seq<string>, illegal: bool)
    ensures texts == TextsOf(r, cfg) && illegal == Illegal(r, cfg)
  {
    hide HasNegated, HasIllegalPcre, ContentTexts, PcreTexts;
    texts, illegal := [], false;
    if cfg.includeLiterals {
      texts, illegal := EmitContents(r.contents);
    }
    if cfg.includePcres {
      var more, bad := EmitPcres(r.pcres);
      texts, illegal := texts + more, illegal || bad;
    }
  }

  method AppendPatterns(before: seq<(nat, string)>, map0: map<nat, string>, first: nat, texts: seq<string>, sid: string,
                        ghost oldTexts: seq<string>, ghost oldOwners: seq<string>)
    returns (inRgxs: seq<(nat, string)>, id2sid: map<nat, string>, i: nat)
    requires Numbered(before, map0, oldTexts, oldOwners) && first == 1 + |oldTexts|
    ensures Numbered(inRgxs, id2sid, oldTexts + texts, oldOwners + Repeat(sid, |texts|))
    ensures i == first + |texts|
  {
    inRgxs, id2sid, i := before, map0, first;
    for k := 0 to |texts|
      invariant i == first + k
      invariant Numbered(inRgxs, id2sid, oldTexts + texts[..k], oldOwners + Repeat(sid, k))
    {
      inRgxs := inRgxs + [(i, texts[k])];
      id2sid := id2sid[i := sid];
      i := i + 1;
    }
    assert texts[..|texts|] == texts;
  }

  lemma ScanOne(db: seq<Rule>, m: nat, i: nat, cfg: Config)
    requires m < |db| && i < cfg.maxRules
    ensures Scanned(db[m..], i, cfg) == 1 + Scanned(db[m + 1..], i + |TextsOf(db[m], cfg)|, cfg)
  {
    hide TextsOf;
    assert db[m..][0] == db[m] && db[m..][1..] == db[m + 1..];
  }

  lemma HeadGrows(db: seq<Rule>, m: nat, cfg: Config)
    requires m < |db|
    ensures Texts(db[..m + 1], cfg) == Texts(db[..m], cfg) + TextsOf(db[m], cfg)
    ensures Owners(db[..m + 1], cfg) == Owners(db[..m], cfg) + Repeat(db[m].sid, |TextsOf(db[m], cfg)|)
    ensures Sids(db[..m + 1]) == Sids(db[..m]) + {db[m].sid}
    ensures IllegalSids(db[..m + 1], cfg) == IllegalSids(db[..m], cfg) + if Illegal(db[m], cfg) then {db[m].sid} else {}
  {
    hide Illegal, TextsOf;
    assert db[..m + 1][..m] == db[..m] && db[..m + 1][m] == db[m];
  }

  /** The patterns that the compiler rejects in a run on `db`, by their ids. */
  function Rejected(db: seq<Rule>, cfg: Config, compiler: Compiler): set<nat> {
    compiler.rejects(Texts(Head(db, cfg), cfg))
  }

  /** What a run keeps: the rules with surviving sids, unless the compiler reports an id that was
      never given out. */
  function Filtered(db: seq<Rule>, cfg: Config, compiler: Compiler): Result<seq<Rule>> {
    var rejected := Rejected(db, cfg, compiler);
    if InRange(rejected, |Texts(Head(db, cfg), cfg)|) then Ok(KeepSids(db, Survivors(db, cfg, rejected))) else KeyError
  }

  /** The last loop of `filter_rxpc`: the lines of the sids that were scanned and not excluded. */
  method KeepLines(db: seq<Rule>, initial: set<string>, excluded: set<string>) returns (out: seq<Rule>)
    ensures out == KeepSids(db, initial - excluded)
  {
    hide KeepSids;
    out := [];
    ghost var keep := initial - excluded;
    assert db[0..] == db;
    for k := 0 to |db|
      invariant KeepSids(db, keep) == out + KeepSids(db[k..], keep)
    {
      KeepNext(db, k, keep);
      if db[k].sid !in excluded && db[k].sid in initial {
        out := out + [db[k]];
      }
    }
    KeepNext(db, |db|, keep);
  }

  lemma KeepNext(db: seq<Rule>, k: nat, keep: set<string>)
    requires k <= |db|
    ensures k == |db| ==> KeepSids(db[k..], keep) == []
    ensures k < |db| ==>
              KeepSids(db[k..], keep) == (if db[k].sid in keep then [db[k]] else []) + KeepSids(db[k + 1..], keep)
  {
    if k < |db| {
      assert db[k..][1..] == db[k + 1..];
    }
  }

  /** The sids that `id2sid` gives for the rejected ids. */
  lemma LookedUp(scan: Scan, db: seq<Rule>, cfg: Config, rejected: set<nat>)
    requires var head := Head(db, cfg);
             && Numbered(scan.inRgxs, scan.id2sid, Texts(head, cfg), Owners(head, cfg))
             && scan.initial == Sids(head) && scan.excluded == IllegalSids(head, cfg)
    ensures InRange(rejected, |Texts(Head(db, cfg), cfg)|) <==> forall i :: i in rejected ==> i in scan.id2sid
    ensures InRange(rejected, |Texts(Head(db, cfg), cfg)|) ==>
              scan.initial - (scan.excluded + set i | i in rejected :: scan.id2sid[i]) == Survivors(db, cfg, rejected)
  {
    hide Head, Texts, Owners, Sids, IllegalSids;
    if InRange(rejected, |Texts(Head(db, cfg), cfg)|) {
      assert (set i | i in rejected :: scan.id2sid[i]) == RejectedSids(Owners(Head(db, cfg), cfg), rejected);
    }
  }

  /** `filter_rxpc`: the rejected ids become excluded sids; an id that was never given out is a
      KeyError. */
  method FilterRxpc(db: seq<Rule>, cfg: Config, compiler: Compiler) returns (r: Result<seq<Rule>>)
    ensures r == Filtered(db, cfg, compiler)
  {
    hide Head, Texts, Owners, Sids, IllegalSids, InRange, Survivors, KeepSids;
    var scan := NumberPatterns(db, cfg);
    var Scan(_, inRgxs, id2sid, excluded, initial) := scan;
    var texts := seq(|inRgxs|, k requires 0 <= k < |inRgxs| => inRgxs[k].1);
    assert texts == Texts(Head(db, cfg), cfg);
    var uncompiled := compiler.rejects(texts);
    LookedUp(scan, db, cfg, uncompiled);
    if exists i :: i in uncompiled && i !in id2sid {
      return KeyError;
    }
    excluded := excluded + set i | i in uncompiled :: id2sid[i];
    var out := KeepLines(db, initial, excluded);
    return Ok(out);
  }

  // ----- what a run keeps -----

  lemma {:induction false} SidsAre(rules: seq<Rule>, cfg: Config, sid: string)
    ensures sid in Sids(rules) <==> exists k :: 0 <= k < |rules| && rules[k].sid == sid
    ensures sid in IllegalSids(rules, cfg)
            <==> exists k :: 0 <= k < |rules| && Illegal(rules[k], cfg) && rules[k].sid == sid
  {
    hide Illegal;
    if rules != [] {
      var init, last := rules[..|rules| - 1], rules[|rules| - 1];
      SidsAre(init, cfg, sid);
      assert forall k :: 0 <= k < |init| ==> init[k] == rules[k];
      if sid == last.sid {
        assert rules[|rules| - 1].sid == sid;
      }
    }
  }

  lemma {:induction false} OwnersAreSids(rules: seq<Rule>, cfg: Config, i: nat)
    requires i < |Owners(rules, cfg)|
    ensures Owners(rules, cfg)[i] in Sids(rules)
  {
    hide TextsOf;
    if rules != [] {
      var init := rules[..|rules| - 1];
      if i < |Owners(init, cfg)| {
        OwnersAreSids(init, cfg, i);
      }
    }
  }

  lemma {:induction false} KeepSidsTwice(rules: seq<Rule>, s: set<string>, t: set<string>)
    ensures KeepSids(KeepSids(rules, s), t) == KeepSids(rules, s * t)
  {
    if rules != [] {
      KeepSidsTwice(rules[1..], s, t);
      var rest := KeepSids(rules[1..], s);
      if rules[0].sid in s {
        assert ([rules[0]] + rest)[1..] == rest;
      } else {
        assert KeepSids(rules, s) == rest;
      }
    }
  }

  lemma {:induction false} KeepSidsSize(rules: seq<Rule>, s: set<string>)
    ensures |KeepSids(rules, s)| <= |rules|
    ensures forall r :: r in KeepSids(rules, s) <==> r in rules && r.sid in s
  {
    if rules != [] {
      KeepSidsSize(rules[1..], s);
      assert rules == [rules[0]] + rules[1..];
    }
  }

  lemma {:induction false} KeepSidsDrops(rules: seq<Rule>, s: set<string>, k: nat)
    requires k < |rules| && rules[k].sid !in s
    ensures |KeepSids(rules, s)| < |rules|
  {
    if k == 0 {
      KeepSidsSize(rules[1..], s);
    } else {
      KeepSidsDrops(rules[1..], s, k - 1);
    }
  }

  /** A run in which something was rejected keeps fewer rules than it was given. */
  lemma RejectionShrinks(db: seq<Rule>, cfg: Config, rejected: set<nat>)
    requires rejected != {} && InRange(rejected, |Texts(Head(db, cfg), cfg)|)
    ensures |KeepSids(db, Survivors(db, cfg, rejected))| < |db|
  {
    var head := Head(db, cfg);
    var i: nat :| i in rejected;
    var sid := Owners(head, cfg)[i - 1];
    OwnersAreSids(head, cfg, i - 1);
    SidsAre(head, cfg, sid);
    var k :| 0 <= k < |head| && head[k].sid == sid;
    assert db[k].sid == sid;
    assert sid in RejectedSids(Owners(head, cfg), rejected) by {
      assert 1 <= i <= |Owners(head, cfg)| && Owners(head, cfg)[i - 1] == sid;
    }
    KeepSidsDrops(db, Survivors(db, cfg, rejected), k);
  }

  lemma {:induction false} KeepAll(rules: seq<Rule>, s: set<string>)
    requires forall r :: r in rules ==> r.sid in s
    ensures KeepSids(rules, s) == rules
  {
    if rules != [] {
      KeepAll(rules[1..], s);
    }
  }

  // ----- the iterated filter -----

  /** The input of the last run of the iterated filter: the first in which nothing is rejected, or
      which ends in a KeyError. The iteration ends because every run that rejects loses a rule. */
  ghost function LastInput(db: seq<Rule>, cfg: Config, compiler: Compiler): seq<Rule>
    decreases |db|
  {
    var r := Filtered(db, cfg, compiler);
    if r.Ok? && Rejected(db, cfg, compiler) != {} then
      RejectionShrinks(db, cfg, Rejected(db, cfg, compiler));
      LastInput(r.value, cfg, compiler)
    else db
  }

  /** `full_rxpc_filter`: filter once, then, if asked to, until the compiler's summary counts no
      rejected rule. */
  method FullRxpcFilter(db: seq<Rule>, iterative: bool, maxRules: nat, compiler: Compiler)
    returns (r: Result<seq<Rule>>)
    requires Agrees(compiler)
    ensures var cfg := Config(true, true, maxRules);
            r == Filtered(if iterative then LastInput(db, cfg, compiler) else db, cfg, compiler)
  {
    var cfg := Config(true, true, maxRules);
    hide Texts, Head, Survivors, Filtered;
    ghost var input := db;
    r := FilterRxpc(db, cfg, compiler);
    if r.KeyError? {
      return;
    }
    var dbOut := r.value;
    var uncompiled := NumberUncompiled(db, cfg, compiler);
    while iterative && uncompiled > 0
      invariant Filtered(input, cfg, compiler) == Ok(dbOut)
      invariant if iterative then LastInput(input, cfg, compiler) == LastInput(db, cfg, compiler) else input == db
      invariant uncompiled == NumberUncompiled(input, cfg, compiler)
      decreases if uncompiled > 0 then |dbOut| + 1 else 0
    {
      input := dbOut;
      r := FilterRxpc(dbOut, cfg, compiler);
      if r.KeyError? {
        return;
      }
      uncompiled := NumberUncompiled(dbOut, cfg, compiler);
      if uncompiled > 0 {
        RejectingRunShrinks(dbOut, cfg, compiler);
      }
      dbOut := r.value;
    }
    r := Ok(dbOut);
  }

  lemma RejectingRunShrinks(db: seq<Rule>, cfg: Config, compiler: Compiler)
    requires Filtered(db, cfg, compiler).Ok? && Rejected(db, cfg, compiler) != {}
    ensures |Filtered(db, cfg, compiler).value| < |db|
  {
    RejectionShrinks(db, cfg, Rejected(db, cfg, compiler));
  }

  /** `rxcp_get_n_uncompiled`: the count in the summary of the run on `input`. */
  function NumberUncompiled(input: seq<Rule>, cfg: Config, compiler: Compiler): nat {
    compiler.summary(Texts(Head(input, cfg), cfg))
  }

  /** The last input is a selection of the database by sid; if its run does not end in a KeyError,
      nothing was rejected in it. */
  lemma {:induction false} LastInputSettles(db: seq<Rule>, cfg: Config, compiler: Compiler) returns (sids: set<string>)
    ensures LastInput(db, cfg, compiler) == KeepSids(db, sids)
    ensures var last := LastInput(db, cfg, compiler);
            Filtered(last, cfg, compiler).Ok? ==> Rejected(last, cfg, compiler) == {}
    decreases |db|
  {
    hide Texts, Head, InRange;
    var r := Filtered(db, cfg, compiler);
    if r.Ok? && Rejected(db, cfg, compiler) != {} {
      RejectingRunShrinks(db, cfg, compiler);
      var survivors := Survivors(db, cfg, Rejected(db, cfg, compiler));
      var rest := LastInputSettles(r.value, cfg, compiler);
      KeepSidsTwice(db, survivors, rest);
      sids := survivors * rest;
    } else {
      sids := set rule | rule in db :: rule.sid;
      KeepAll(db, sids);
    }
  }

  /** No two rules share a sid. */
  ghost predicate UniqueSids(db: seq<Rule>) {
    forall j, k :: 0 <= j < |db| && 0 <= k < |db| && db[j].sid == db[k].sid ==> j == k
  }

  lemma {:induction false} TextsContain(rules: seq<Rule>, cfg: Config, k: nat, text: string)
    requires k < |rules| && text in TextsOf(rules[k], cfg)
    ensures text in Texts(rules, cfg)
  {
    hide TextsOf;
    var init := rules[..|rules| - 1];
    if k < |init| {
      TextsContain(init, cfg, k, text);
    }
  }

  /** With unique sids, every rule kept by a run was looked at in it, is legal, and had every
      content and every pcre it has among the patterns handed to the compiler. */
  lemma KeptRuleWasCompiled(input: seq<Rule>, cfg: Config, compiler: Compiler, r: Rule)
    requires UniqueSids(input) && Filtered(input, cfg, compiler).Ok? && r in Filtered(input, cfg, compiler).value
    ensures !Illegal(r, cfg)
    ensures cfg.includeLiterals ==> forall c :: c in r.contents ==> Compile(Unquote(c)) in Texts(Head(input, cfg), cfg)
    ensures cfg.includePcres ==> forall p :: p in r.pcres ==> Unquote(p) in Texts(Head(input, cfg), cfg)
  {
    var head := Head(input, cfg);
    var survivors := Survivors(input, cfg, Rejected(input, cfg, compiler));
    KeepSidsSize(input, survivors);
    SidsAre(head, cfg, r.sid);
    var k :| 0 <= k < |head| && head[k].sid == r.sid;
    var j :| 0 <= j < |input| && input[j] == r;
    assert input[k] == head[k] && k == j;
    RuleTexts(head, cfg, k);
  }

  lemma RuleTexts(rules: seq<Rule>, cfg: Config, k: nat)
    requires k < |rules| && !Illegal(rules[k], cfg)
    ensures var r := rules[k];
            && (cfg.includeLiterals ==> forall c :: c in r.contents ==> Compile(Unquote(c)) in Texts(rules, cfg))
            && (cfg.includePcres ==> forall p :: p in r.pcres ==> Unquote(p) in Texts(rules, cfg))
  {
    var r := rules[k];
    if cfg.includeLiterals {
      LegalContentsAllEmitted(r.contents);
      forall c | c in r.contents
        ensures Compile(Unquote(c)) in Texts(rules, cfg)
      {
        var i :| 0 <= i < |r.contents| && r.contents[i] == c;
        assert ContentTexts(r.contents)[i] in TextsOf(r, cfg);
        TextsContain(rules, cfg, k, Compile(Unquote(c)));
      }
    }
    if cfg.includePcres {
      LegalPcresAllEmitted(r.pcres);
      forall p | p in r.pcres
        ensures Unquote(p) in Texts(rules, cfg)
      {
        var i :| 0 <= i < |r.pcres| && r.pcres[i] == p;
        assert PcreTexts(r.pcres)[i] in TextsOf(r, cfg);
        TextsContain(rules, cfg, k, Unquote(p));
      }
    }
  }

  lemma {:induction false} KeepSidsUnique(rules: seq<Rule>, s: set<string>)
    requires UniqueSids(rules)
    ensures UniqueSids(KeepSids(rules, s))
  {
    if rules != [] {
      var tail := rules[1..];
      assert forall k :: 0 <= k < |tail| ==> tail[k] == rules[k + 1];
      KeepSidsUnique(tail, s);
      KeepSidsSize(tail, s);
      var kept := KeepSids(tail, s);
      forall j | 0 <= j < |kept|
        ensures kept[j].sid != rules[0].sid
      {
        assert kept[j] in tail;
      }
    }
  }

  /** The working set: when the iterated filter ends without a KeyError, its last compiler run
      rejected nothing and contained every pattern of every rule of the final database, and those
      rules are legal rules of the initial one. */
  lemma WorkingSetCompiles(db: seq<Rule>, cfg: Config, compiler: Compiler, r: Rule)
    requires UniqueSids(db)
    requires var out := Filtered(LastInput(db, cfg, compiler), cfg, compiler); out.Ok? && r in out.value
    ensures Rejected(LastInput(db, cfg, compiler), cfg, compiler) == {}
    ensures r in db && !Illegal(r, cfg)
    ensures var compiled := Texts(Head(LastInput(db, cfg, compiler), cfg), cfg);
            && (cfg.includeLiterals ==> forall c :: c in r.contents ==> Compile(Unquote(c)) in compiled)
            && (cfg.includePcres ==> forall p :: p in r.pcres ==> Unquote(p) in compiled)
  {
    var last := LastInput(db, cfg, compiler);
    var sids := LastInputSettles(db, cfg, compiler);
    hide Texts, Head, LastInput, Survivors, Illegal;
    KeepSidsUnique(db, sids);
    KeptRuleWasCompiled(last, cfg, compiler, r);
    KeepSidsSize(db, sids);
    KeepSidsSize(last, Survivors(last, cfg, {}));
  }

  /** The same in terms of the rules' text: for every quoted content of a kept rule, well-formed and
      without a backslash, the last run compiled an expression that matches exactly the bytes that it
      denotes, and every quoted pcre was compiled as it stands between its quotes. */
  lemma KeptRuleIsMatched(input: seq<Rule>, cfg: Config, compiler: Compiler, r: Rule)
    requires UniqueSids(input) && Filtered(input, cfg, compiler).Ok? && r in Filtered(input, cfg, compiler).value
    ensures cfg.includeLiterals ==> forall c :: Quoted(c) in r.contents && Denote(c).Some? && '\\' !in c ==>
              exists t :: t in Texts(Head(input, cfg), cfg) && MatchesOnly(t, Denote(c).value)
    ensures cfg.includePcres ==> forall p :: Quoted(p) in r.pcres ==> p in Texts(Head(input, cfg), cfg)
  {
    hide Texts, Head, Filtered, MatchesOnly;
    KeptRuleWasCompiled(input, cfg, compiler, r);
    if cfg.includeLiterals {
      forall c | Quoted(c) in r.contents && Denote(c).Some? && '\\' !in c
        ensures exists t :: t in Texts(Head(input, cfg), cfg) && MatchesOnly(t, Denote(c).value)
      {
        UnquoteIs(Quoted(c));
        CompilePreservesMeaning(c);
        assert Compile(c) in Texts(Head(input, cfg), cfg);
      }
    }
    if cfg.includePcres {
      forall p | Quoted(p) in r.pcres
        ensures p in Texts(Head(input, cfg), cfg)
      {
        UnquoteIs(Quoted(p));
      }
    }
  }

  /** The working set is matched: of every rule of the final database, every such content and every
      quoted pcre was in the last compiler run, which rejected nothing. */
  lemma WorkingSetIsMatched(db: seq<Rule>, cfg: Config, compiler: Compiler, r: Rule)
    requires UniqueSids(db)
    requires var out := Filtered(LastInput(db, cfg, compiler), cfg, compiler); out.Ok? && r in out.value
    ensures Rejected(LastInput(db, cfg, compiler), cfg, compiler) == {}
    ensures var compiled := Texts(Head(LastInput(db, cfg, compiler), cfg), cfg);
            && (cfg.includeLiterals ==> forall c :: Quoted(c) in r.contents && Denote(c).Some? && '\\' !in c ==>
                  exists t :: t in compiled && MatchesOnly(t, Denote(c).value))
            && (cfg.includePcres ==> forall p :: Quoted(p) in r.pcres ==> p in compiled)
  {
    var sids := LastInputSettles(db, cfg, compiler);
    hide Texts, Head, LastInput, Filtered, MatchesOnly, Rejected;
    KeepSidsUnique(db, sids);
    KeptRuleIsMatched(LastInput(db, cfg, compiler), cfg, compiler, r);
  }
}
