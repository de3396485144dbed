/**
 The option loop of clean_and_fix in data/rule_sampler.py: it drops every pcre and every negated
 content from a rule, together with the options before and after it that it takes for modifiers.
 Reading past either end of a list raises an IndexError.
 */
module RuleCleaner {
  import opened Text

  datatype Opt = Opt(name: string, value: string)

  predicate Negated(o: Opt) {
    o.name == "content" && StartsWith(o.value, "!")
  }

  /** What the loop is to remove. */
  predicate Unwanted(o: Opt) {
    Negated(o) || o.name == "pcre"
  }

  predicate Keyword(o: Opt) {
    o.name == "content" || o.name == "pcre"
  }

  predicate Http(o: Opt) {
    StartsWith(o.name, "http.")
  }

  predicate Dns(o: Opt) {
    StartsWith(o.name, "dns.")
  }

  /** The options that the walk backwards removes. */
  predicate Modifier(o: Opt) {
    Http(o) || Dns(o)
  }

  /** Where the walk forwards stops. */
  predicate Stops(o: Opt) {
    o.name == "sid" || Keyword(o) || Http(o)
  }

  /** The options that the loop is to leave alone. */
  predicate Anchor(o: Opt) {
    o.name == "sid" || (o.name == "content" && !Negated(o))
  }

  lemma NamesApart(o: Opt)
    ensures !(Http(o) && Dns(o))
    ensures Keyword(o) || o.name == "sid" ==> !Modifier(o)
  {
    if Http(o) {
      assert o.name[0] == "http."[0] == 'h';
    }
    if Dns(o) {
      assert o.name[0] == "dns."[0] == 'd';
    }
  }

  /** A content that begins with an exclamation mark, or a pcre. */
  ghost predicate Dropped(o: Opt) {
    o.name == "pcre" || (o.name == "content" && exists t :: o.value == "!" + t)
  }

  ghost predicate Ordinary(o: Opt) {
    o.name !in ["sid", "content", "pcre"] && forall t :: o.name != "http." + t
  }

  /** The classes of options, said of their names and values. */
  lemma NamesAre(o: Opt)
    ensures Unwanted(o) <==> Dropped(o)
    ensures Stops(o) <==> !Ordinary(o)
    ensures Http(o) <==> exists t :: o.name == "http." + t
    ensures Dns(o) <==> exists t :: o.name == "dns." + t
    ensures Keyword(o) <==> o.name in ["content", "pcre"]
    ensures Anchor(o) <==> o.name == "sid" || (o.name == "content" && !Dropped(o))
  {
    StartsWithIs(o.value, "!");
    StartsWithIs(o.name, "http.");
    StartsWithIs(o.name, "dns.");
  }

  // ----- filtered options -----

  function Filter(s: seq<Opt>, p: Opt -> bool): seq<Opt> {
    if s == [] then [] else Filter(s[..|s| - 1], p) + if p(s[|s| - 1]) then [s[|s| - 1]] else []
  }

  lemma {:induction false} FilterAppend(a: seq<Opt>, b: seq<Opt>, p: Opt -> bool)
    ensures Filter(a + b, p) == Filter(a, p) + Filter(b, p)
  {
    if b == [] {
      assert a + b == a;
    } else {
      var m := |b| - 1;
      assert (a + b)[..|a + b| - 1] == a + b[..m];
      FilterAppend(a, b[..m], p);
    }
  }

  // ----- the walk backwards -----

  datatype Outcome = Cleaned(options: seq<Opt>) | BackwardIndexError | ForwardIndexError

  function Then(r: Outcome, tail: seq<Opt>): Outcome {
    if r.Cleaned? then Cleaned(r.options + tail) else r
  }

  /** The walk backwards, on the options up to the one that it reads. A removal shortens the list
      while the index from its end still grows, so the option before the removed one is passed over
      (after it has been tried for the prefix "dns." if the removed one had the prefix "http."). */
  function Walk(s: seq<Opt>): (r: Outcome)
    ensures r != ForwardIndexError
  {
    var n := |s|;
    if n == 0 then BackwardIndexError
    else if Keyword(s[n - 1]) || n == 1 then Cleaned(s)
    else if Http(s[n - 1]) && Dns(s[n - 2]) then
      if n == 2 then BackwardIndexError else Then(Walk(s[..n - 3]), [s[n - 3]])
    else if Modifier(s[n - 1]) then Then(Walk(s[..n - 2]), [s[n - 2]])
    else Then(Walk(s[..n - 1]), [s[n - 1]])
  }

  lemma ThenThen(r: Outcome, a: seq<Opt>, b: seq<Opt>)
    ensures Then(Then(r, a), b) == Then(r, a + b)
  {
    if r.Cleaned? {
      assert (r.options + a) + b == r.options + (a + b);
    }
  }

  /** One round of the walk, for the option `back` places from the end. */
  method TryPrefixes(options: seq<Opt>, back: nat) returns (kept: seq<Opt>)
    requires 0 < back < |options|
    ensures var p := |options| - back;
            kept == if Http(options[p]) && Dns(options[p - 1]) then options[..p - 1] + options[p + 1..]
                    else if Modifier(options[p]) then options[..p] + options[p + 1..]
                    else options
  {
    ghost var p := |options| - back;
    NamesApart(options[p]);
    kept := options;
    if StartsWith(kept[|kept| - back].name, "http.") {
      kept := kept[..|kept| - back] + kept[|kept| - back + 1..];
      assert kept[..p - 1] + kept[p..] == options[..p - 1] + options[p + 1..];
    }
    if StartsWith(kept[|kept| - back].name, "dns.") {
      kept := kept[..|kept| - back] + kept[|kept| - back + 1..];
    }
  }

  /** The state of the walk: it is to read the option `back` places from the end of `kept`. */
  function Ahead(kept: seq<Opt>, back: nat): Outcome
    requires back > 0
  {
    if |kept| < back then BackwardIndexError
    else Then(Walk(kept[..|kept| - back + 1]), kept[|kept| - back + 1..])
  }

  /** The cases of the walk at an option that does not stop it. */
  lemma WalkUnfolds(s: seq<Opt>)
    requires |s| > 1 && !Keyword(s[|s| - 1])
    ensures var n := |s|;
            Walk(s) == if Http(s[n - 1]) && Dns(s[n - 2]) then
                         if n == 2 then BackwardIndexError else Then(Walk(s[..n - 3]), [s[n - 3]])
                       else if Modifier(s[n - 1]) then Then(Walk(s[..n - 2]), [s[n - 2]])
                       else Then(Walk(s[..n - 1]), [s[n - 1]])
  {
  }

  /** One option moves from the part of `kept` that was walked to the part before `rest`. */
  lemma AheadShifts(s: seq<Opt>, x: Opt, rest: seq<Opt>, back: nat)
    requires back == |rest| + 1
    ensures Then(Then(Walk(s), [x]), rest) == Ahead(s + [x] + rest, back + 1)
  {
    assert s == [] ==> Walk(s) == BackwardIndexError;
    hide Walk;
    var kept := s + [x] + rest;
    assert kept[..|kept| - back] == s;
    assert kept[|kept| - back..] == [x] + rest;
    ThenThen(Walk(s), [x], rest);
  }

  lemma RoundAdvances(options: seq<Opt>, back: nat, kept: seq<Opt>)
    requires 0 < back < |options| && !Keyword(options[|options| - back])
    requires var p := |options| - back;
             kept == if Http(options[p]) && Dns(options[p - 1]) then options[..p - 1] + options[p + 1..]
                     else if Modifier(options[p]) then options[..p] + options[p + 1..]
                     else options
    ensures Ahead(options, back) == Ahead(kept, back + 1)
  {
    hide Walk, Http, Dns, Modifier, Keyword;
    var p := |options| - back;
    var read, rest := options[..p + 1], options[p + 1..];
    WalkUnfolds(read);
    if Http(options[p]) && Dns(options[p - 1]) {
      if p > 1 {
        assert read[..p - 2] == options[..p - 2];
        assert kept == options[..p - 2] + [options[p - 2]] + rest;
        AheadShifts(options[..p - 2], options[p - 2], rest, back);
      }
    } else if Modifier(options[p]) {
      assert read[..p - 1] == options[..p - 1];
      assert kept == options[..p - 1] + [options[p - 1]] + rest;
      AheadShifts(options[..p - 1], options[p - 1], rest, back);
    } else {
      assert read[..p] == options[..p];
      assert kept == options[..p] + [options[p]] + rest;
      AheadShifts(options[..p], options[p], rest, back);
    }
  }

  lemma AheadStarts(options: seq<Opt>)
    ensures Ahead(options, 1) == Walk(options)
  {
    assert options[..|options|] == options;
    assert Walk(options).Cleaned? ==> Walk(options).options + [] == Walk(options).options;
  }

  lemma AheadFails(kept: seq<Opt>, back: nat)
    requires back > |kept|
    ensures Ahead(kept, back) == BackwardIndexError
  {
  }

  lemma AheadEnds(kept: seq<Opt>, back: nat)
    requires 0 < back <= |kept|
    requires Keyword(kept[|kept| - back]) || back == |kept|
    ensures Ahead(kept, back) == Cleaned(kept)
  {
    var read := kept[..|kept| - back + 1];
    assert Walk(read) == Cleaned(read);
    assert read + kept[|kept| - back + 1..] == kept;
  }

  /** The loop that walks backwards over the options kept so far. */
  method WalkBack(options: seq<Opt>) returns (r: Outcome)
    ensures r == Walk(options)
  {
    var kept, back := options, 1;
    AheadStarts(options);
    while true
      invariant back > 0 && Ahead(kept, back) == Walk(options)
      decreases |kept| + 1 - back
    {
      hide Walk, Ahead, Http, Dns, Keyword;
      if back > |kept| {
        AheadFails(kept, back);
        return BackwardIndexError;
      }
      if Keyword(kept[|kept| - back]) || back > |kept| - 1 {
        AheadEnds(kept, back);
        return Cleaned(kept);
      }
      var next := TryPrefixes(kept, back);
      RoundAdvances(kept, back, next);
      kept, back := next, back + 1;
    }
  }

  // ----- what the walk removes -----

  /** The last keyword of a list, or its first option. */
  function Fence(s: seq<Opt>): (c: nat)
    requires s != []
    ensures c < |s|
  {
    if |s| == 1 || Keyword(s[|s| - 1]) then |s| - 1 else Fence(s[..|s| - 1])
  }

  /** What the walk is meant to leave: all but the modifiers after the last keyword. */
  function Intended(s: seq<Opt>): seq<Opt> {
    if s == [] || Keyword(s[|s| - 1]) then s
    else Intended(s[..|s| - 1]) + if Modifier(s[|s| - 1]) then [] else [s[|s| - 1]]
  }

  /** No modifier follows the last keyword of a list that is not empty. */
  predicate Bare(s: seq<Opt>) {
    s != [] && (|s| == 1 || Keyword(s[|s| - 1]) || (!Modifier(s[|s| - 1]) && Bare(s[..|s| - 1])))
  }

  /** Modifiers may be neighbours only as a dns. option right before an http. one. */
  predicate Neighbours(a: Opt, b: Opt) {
    Modifier(a) && Modifier(b) ==> Dns(a) && Http(b)
  }

  predicate Spaced(s: seq<Opt>) {
    |s| > 1 ==> Neighbours(s[|s| - 2], s[|s| - 1]) && Spaced(s[..|s| - 1])
  }

  /** When the walk leaves what it is meant to: the modifiers after the last keyword are spaced; and
      one right after that keyword, which makes the walk step over the keyword, finds options before
      it that end without a modifier. */
  predicate Tidy(s: seq<Opt>) {
    && s != []
    && var c := Fence(s);
       && !Modifier(s[c])
       && Spaced(s[c + 1..])
       && (c + 1 < |s| && Modifier(s[c + 1]) ==> Bare(s[..c]))
  }

  lemma {:induction false} WalkShrinks(s: seq<Opt>)
    ensures Walk(s).Cleaned? ==> |Walk(s).options| <= |s|
    ensures s != [] && Walk(s).Cleaned? && |Walk(s).options| == |s| ==> Bare(s) && Walk(s).options == s
  {
    hide StartsWith;
    var n := |s|;
    if n > 1 && !Keyword(s[n - 1]) {
      if Modifier(s[n - 1]) {
        WalkShrinks(s[..n - 2]);
        if n > 2 {
          WalkShrinks(s[..n - 3]);
        }
      } else {
        WalkShrinks(s[..n - 1]);
        assert s == s[..n - 1] + [s[n - 1]];
      }
    }
  }

  lemma {:induction false} WalkIdle(s: seq<Opt>)
    ensures Walk(s) == Cleaned(s) <==> Bare(s)
  {
    hide StartsWith;
    WalkShrinks(s);
    var n := |s|;
    if n > 1 && !Keyword(s[n - 1]) && !Modifier(s[n - 1]) {
      WalkIdle(s[..n - 1]);
      assert s == s[..n - 1] + [s[n - 1]];
    }
  }

  lemma {:induction false} IntendedEnd(s: seq<Opt>)
    ensures Intended(s) != [] ==> !Modifier(Intended(s)[|Intended(s)| - 1])
  {
    if s != [] {
      NamesApart(s[|s| - 1]);
      if !Keyword(s[|s| - 1]) {
        IntendedEnd(s[..|s| - 1]);
      }
    }
  }

  lemma SpacedSnoc(s: seq<Opt>, c: nat)
    requires c < |s| - 1
    ensures Spaced(s[c + 1..])
            <==> Spaced(s[..|s| - 1][c + 1..]) && (c < |s| - 2 ==> Neighbours(s[|s| - 2], s[|s| - 1]))
  {
    hide Neighbours;
    var t := s[c + 1..];
    assert t[..|t| - 1] == s[..|s| - 1][c + 1..];
  }

  lemma FenceSnoc(s: seq<Opt>)
    requires |s| > 1 && !Keyword(s[|s| - 1])
    ensures Fence(s) == Fence(s[..|s| - 1]) < |s| - 1
  {
  }

  /** What one more option, not a keyword, asks for. */
  lemma TidySnoc(s: seq<Opt>)
    requires |s| > 1 && !Keyword(s[|s| - 1])
    ensures var n, c := |s|, Fence(s);
            && c == Fence(s[..n - 1]) && c < n - 1
            && (Tidy(s) <==> Tidy(s[..n - 1])
                             && (c < n - 2 ==> Neighbours(s[n - 2], s[n - 1]))
                             && (c == n - 2 && Modifier(s[n - 1]) ==> Bare(s[..c])))
  {
    hide Keyword, Modifier, Bare, Neighbours, Spaced, Fence;
    FenceSnoc(s);
    SpacedSnoc(s, Fence(s));
    assert s[..|s| - 1][..Fence(s)] == s[..Fence(s)];
  }

  /** The walk leaves what it is meant to. */
  predicate AsIntended(s: seq<Opt>) {
    Walk(s) == Cleaned(Intended(s))
  }

  lemma ThenSame(r: Outcome, a: seq<Opt>, x: Opt)
    ensures Then(r, [x]) == Cleaned(a + [x]) <==> r == Cleaned(a)
  {
    if Then(r, [x]) == Cleaned(a + [x]) {
      assert r.options == (r.options + [x])[..|r.options|] == (a + [x])[..|a|] == a;
    }
  }

  lemma IntendedUnfolds(s: seq<Opt>)
    requires s != []
    ensures Intended(s) == if Keyword(s[|s| - 1]) then s
                           else Intended(s[..|s| - 1]) + if Modifier(s[|s| - 1]) then [] else [s[|s| - 1]]
  {
  }

  lemma PlainCase(s: seq<Opt>)
    requires |s| > 1 && !Keyword(s[|s| - 1]) && !Modifier(s[|s| - 1])
    requires AsIntended(s[..|s| - 1]) <==> Tidy(s[..|s| - 1])
    ensures AsIntended(s) <==> Tidy(s)
  {
    hide Walk, Intended, Tidy, Keyword, StartsWith, Fence, Bare;
    var n := |s|;
    WalkUnfolds(s);
    TidySnoc(s);
    IntendedUnfolds(s);
    ThenSame(Walk(s[..n - 1]), Intended(s[..n - 1]), s[n - 1]);
  }

  lemma PairCase(s: seq<Opt>)
    requires |s| > 1 && Http(s[|s| - 1]) && Dns(s[|s| - 2])
    requires AsIntended(s[..|s| - 1]) <==> Tidy(s[..|s| - 1])
    ensures AsIntended(s) <==> Tidy(s)
  {
    var n := |s|;
    var u := s[..n - 1];
    NamesApart(s[n - 1]);
    NamesApart(s[n - 2]);
    assert n == 2 ==> Fence(s) == 0;
    assert n > 2 ==> Fence(s) < n - 2;
    assert Modifier(s[Fence(s)]) ==> !Tidy(s);
    hide Walk, Intended, Tidy, Keyword, StartsWith, Fence, Bare;
    WalkUnfolds(s);
    TidySnoc(s);
    IntendedUnfolds(s);
    if n > 2 {
      WalkUnfolds(u);
      assert u[..n - 3] == s[..n - 3];
    }
  }

  /** A modifier right after a keyword: what the walk removes is beyond that keyword. */
  lemma KeywordCase(s: seq<Opt>)
    requires |s| > 1 && Modifier(s[|s| - 1]) && Keyword(s[|s| - 2])
    ensures AsIntended(s) <==> Tidy(s)
  {
    var n := |s|;
    var u := s[..n - 1];
    NamesApart(s[n - 1]);
    NamesApart(s[n - 2]);
    assert Fence(u) == n - 2 && Tidy(u);
    assert u == s[..n - 2] + [s[n - 2]];
    hide Walk, Intended, Tidy, Keyword, StartsWith, Fence, Bare;
    WalkUnfolds(s);
    TidySnoc(s);
    IntendedUnfolds(s);
    IntendedUnfolds(u);
    WalkIdle(s[..n - 2]);
    ThenSame(Walk(s[..n - 2]), s[..n - 2], s[n - 2]);
  }

  lemma ApartCase(s: seq<Opt>)
    requires |s| > 1 && Modifier(s[|s| - 1]) && !Keyword(s[|s| - 2]) && !Modifier(s[|s| - 2])
    requires AsIntended(s[..|s| - 2]) <==> Tidy(s[..|s| - 2])
    ensures AsIntended(s) <==> Tidy(s)
  {
    var n := |s|;
    var u, w := s[..n - 1], s[..n - 2];
    NamesApart(s[n - 1]);
    assert n == 2 ==> Fence(s) == 0 && !Tidy(s) && Walk(w) == BackwardIndexError;
    assert n > 2 ==> Fence(s) < n - 2;
    hide Walk, Intended, Tidy, Keyword, StartsWith, Fence, Bare;
    WalkUnfolds(s);
    TidySnoc(s);
    IntendedUnfolds(s);
    IntendedUnfolds(u);
    assert u[..n - 2] == w;
    if n > 2 {
      TidySnoc(u);
      ThenSame(Walk(w), Intended(w), s[n - 2]);
    }
  }

  /** A modifier right after another one, which the walk passes over. */
  lemma CrowdedCase(s: seq<Opt>)
    requires |s| > 1 && Modifier(s[|s| - 1]) && Modifier(s[|s| - 2]) && !(Http(s[|s| - 1]) && Dns(s[|s| - 2]))
    ensures !AsIntended(s) && !Tidy(s)
  {
    var n := |s|;
    NamesApart(s[n - 1]);
    NamesApart(s[n - 2]);
    assert Fence(s) == n - 2 ==> !Tidy(s);
    IntendedEnd(s);
    hide Walk, Intended, Tidy, Keyword, StartsWith, Fence, Bare;
    WalkUnfolds(s);
    TidySnoc(s);
  }

  /** The walk removes the modifiers after the last keyword, and nothing else, exactly for a tidy
      list. */
  lemma {:induction false} WalkAsIntended(s: seq<Opt>)
    ensures AsIntended(s) <==> Tidy(s)
  {
    var n := |s|;
    if n <= 1 || Keyword(s[n - 1]) {
      if n > 0 {
        NamesApart(s[n - 1]);
        assert Fence(s) == n - 1 && Spaced(s[n..]);
        assert s == s[..n - 1] + [s[n - 1]];
        if n == 1 {
          assert s[..0] == [] && Intended(s[..0]) == [];
        }
      }
    } else if Modifier(s[n - 1]) {
      if Keyword(s[n - 2]) {
        KeywordCase(s);
      } else if !Modifier(s[n - 2]) {
        WalkAsIntended(s[..n - 2]);
        ApartCase(s);
      } else if Http(s[n - 1]) && Dns(s[n - 2]) {
        WalkAsIntended(s[..n - 1]);
        PairCase(s);
      } else {
        CrowdedCase(s);
      }
    } else {
      WalkAsIntended(s[..n - 1]);
      PlainCase(s);
    }
  }

  // ----- when the walk ends at all -----

  /** What the walk stops in: the options up to a keyword, or the first option alone. */
  predicate IsHead(s: seq<Opt>): (yes: bool)
    ensures yes ==> s != []
  {
    s != [] && (|s| == 1 || Keyword(s[|s| - 1]))
  }

  /** What one round of the walk takes: an option that it keeps, or a modifier that it removes with
      the option before it that it passes over, or an http. option with a dns. option before it and
      the option before both. */
  predicate IsBlock(b: seq<Opt>): (yes: bool)
    ensures yes ==> b != []
  {
    match |b|
    case 1 => !Keyword(b[0]) && !Modifier(b[0])
    case 2 => Modifier(b[1]) && !(Http(b[1]) && Dns(b[0]))
    case 3 => Http(b[2]) && Dns(b[1])
    case _ => false
  }

  /** The options in front of the blocks, which are the ones that stay. */
  function Firsts(blocks: seq<seq<Opt>>): (fs: seq<Opt>)
    requires forall b :: b in blocks ==> IsBlock(b)
    ensures |fs| == |blocks|
  {
    seq(|blocks|, k requires 0 <= k < |blocks| => (assert IsBlock(blocks[k]); blocks[k][0]))
  }

  /** A list that is a head followed by blocks. */
  predicate Parses(s: seq<Opt>, head: seq<Opt>, blocks: seq<seq<Opt>>) {
    IsHead(head) && (forall b :: b in blocks ==> IsBlock(b)) && s == head + Concat(blocks)
  }

  ghost predicate Parsable(s: seq<Opt>) {
    exists head, blocks :: Parses(s, head, blocks)
  }

  lemma BlockStep(s: seq<Opt>, b: seq<Opt>)
    requires s != [] && IsBlock(b)
    ensures Walk(s + b) == Then(Walk(s), [b[0]])
  {
    var t, n := s + b, |s + b|;
    NamesApart(t[n - 1]);
    assert !Keyword(t[n - 1]);
    assert |b| == 2 && Http(b[1]) ==> !Dns(t[n - 2]);
    hide Walk, Keyword, StartsWith;
    NamesApart(b[|b| - 1]);
    WalkUnfolds(t);
    assert t[n - |b|] == b[0] && t[..n - |b|] == s;
  }

  lemma LastOfBlocks(head: seq<Opt>, blocks: seq<seq<Opt>>)
    requires blocks != [] && forall b :: b in blocks ==> IsBlock(b)
    ensures var init, last := blocks[..|blocks| - 1], blocks[|blocks| - 1];
            && last in blocks && (forall b :: b in init ==> b in blocks)
            && head + Concat(blocks) == (head + Concat(init)) + last
            && Firsts(blocks) == Firsts(init) + [last[0]]
  {
    hide IsBlock;
    var init, last := blocks[..|blocks| - 1], blocks[|blocks| - 1];
    assert blocks == init + [last];
    ConcatSnoc(init, last);
    Regroup(head, Concat(init), last);
  }

  lemma {:induction false} ParsedWalk(head: seq<Opt>, blocks: seq<seq<Opt>>)
    requires IsHead(head) && forall b :: b in blocks ==> IsBlock(b)
    ensures Walk(head + Concat(blocks)) == Cleaned(head + Firsts(blocks))
  {
    if blocks == [] {
      assert head + Concat(blocks) == head;
    } else {
      hide Walk, IsHead, IsBlock, Firsts;
      LastOfBlocks(head, blocks);
      var init, last := blocks[..|blocks| - 1], blocks[|blocks| - 1];
      ParsedWalk(head, init);
      BlockStep(head + Concat(init), last);
      Regroup(head, Firsts(init), [last[0]]);
    }
  }

  lemma LastBlock(s: seq<Opt>) returns (k: nat)
    requires |s| > 1 && !Keyword(s[|s| - 1]) && Walk(s).Cleaned?
    ensures 0 < k < |s| && IsBlock(s[k..]) && Walk(s[..k]).Cleaned?
  {
    var n := |s|;
    k := if Http(s[n - 1]) && Dns(s[n - 2]) then n - 3 else if Modifier(s[n - 1]) then n - 2 else n - 1;
  }

  /** A walk that ends has stopped at once, or taken a block. */
  lemma WalkCases(s: seq<Opt>) returns (stopped: bool, k: nat)
    requires Walk(s).Cleaned?
    ensures stopped ==> IsHead(s) && Walk(s) == Cleaned(s)
    ensures !stopped ==>
              && 0 < k < |s| && s == s[..k] + s[k..] && IsBlock(s[k..])
              && Walk(s[..k]).Cleaned? && Walk(s) == Then(Walk(s[..k]), [s[k]])
  {
    stopped, k := |s| <= 1 || Keyword(s[|s| - 1]), 0;
    if !stopped {
      k := LastBlock(s);
      hide Walk, IsBlock, Keyword;
      assert s == s[..k] + s[k..];
      BlockStep(s[..k], s[k..]);
    }
  }

  lemma {:induction false} WalkParses(s: seq<Opt>) returns (head: seq<Opt>, blocks: seq<seq<Opt>>)
    requires Walk(s).Cleaned?
    ensures Parses(s, head, blocks)
  {
    hide Walk, IsHead, IsBlock, Then;
    var stopped, k := WalkCases(s);
    if stopped {
      head, blocks := s, [];
      assert s == s + [];
    } else {
      head, blocks := WalkParses(s[..k]);
      ParsesMore(s[..k], head, blocks, s[k..]);
      blocks := blocks + [s[k..]];
    }
  }

  lemma ParsesMore(s: seq<Opt>, head: seq<Opt>, blocks: seq<seq<Opt>>, b: seq<Opt>)
    requires Parses(s, head, blocks) && IsBlock(b)
    ensures Parses(s + b, head, blocks + [b])
  {
    hide IsHead, IsBlock;
    ConcatSnoc(blocks, b);
    assert (head + Concat(blocks)) + b == head + (Concat(blocks) + b);
  }

  /** The walk ends without an index error exactly for the lists that are a head followed by blocks;
      then it leaves the head and the first option of each block. */
  lemma WalkEnds(s: seq<Opt>)
    ensures Walk(s).Cleaned? <==> Parsable(s)
    ensures forall head, blocks :: Parses(s, head, blocks) ==> Walk(s) == Cleaned(head + Firsts(blocks))
  {
    hide Walk;
    if Walk(s).Cleaned? {
      var head, blocks := WalkParses(s);
      assert Parses(s, head, blocks);
    }
    forall head, blocks | Parses(s, head, blocks)
      ensures Walk(s) == Cleaned(head + Firsts(blocks))
    {
      ParsedWalk(head, blocks);
    }
  }

  // ----- the whole loop -----

  /** The first index from `idx` on where the walk forwards stops. */
  function Skip(options: seq<Opt>, idx: nat): (j: nat)
    requires idx <= |options|
    ensures idx <= j <= |options|
    ensures j < |options| ==> Stops(options[j])
    ensures forall k :: idx <= k < j ==> !Stops(options[k])
    decreases |options| - idx
  {
    if idx == |options| || Stops(options[idx]) then idx else Skip(options, idx + 1)
  }

  /** The loop from index `idx` on, with the options kept so far. */
  function Clean(options: seq<Opt>, idx: nat, kept: seq<Opt>): Outcome
    requires idx <= |options|
    decreases |options| - idx
  {
    if idx == |options| then Cleaned(kept)
    else if !Unwanted(options[idx]) then Clean(options, idx + 1, kept + [options[idx]])
    else
      var walked := Walk(kept);
      if !walked.Cleaned? then walked
      else
        var next := Skip(options, idx + 1);
        if next == |options| then ForwardIndexError else Clean(options, next, walked.options)
  }

  /** The option loop of `clean_and_fix`. */
  method CleanOptions(options: seq<Opt>) returns (r: Outcome)
    ensures r == Clean(options, 0, [])
  {
    hide Walk, Unwanted, Stops;
    var kept: seq<Opt> := [];
    var idx := 0;
    while idx < |options|
      invariant 0 <= idx <= |options|
      invariant Clean(options, idx, kept) == Clean(options, 0, [])
    {
      var opt := options[idx];
      if Unwanted(opt) {
        var walked := WalkBack(kept);
        if !walked.Cleaned? {
          return walked;
        }
        kept := walked.options;
        ghost var from := idx + 1;
        idx := idx + 1;
        while idx < |options| && !Stops(options[idx])
          invariant from <= idx <= |options|
          invariant Skip(options, idx) == Skip(options, from)
        {
          idx := idx + 1;
        }
        if idx == |options| {
          return ForwardIndexError;
        }
      } else {
        kept := kept + [opt];
        idx := idx + 1;
      }
    }
    r := Cleaned(kept);
  }

  predicate IsSubsequence(a: seq<Opt>, b: seq<Opt>) {
    a == []
    || (b != []
        && ((a[|a| - 1] == b[|b| - 1] && IsSubsequence(a[..|a| - 1], b[..|b| - 1]))
            || IsSubsequence(a, b[..|b| - 1])))
  }

  lemma SubsequenceSnoc(a: seq<Opt>, b: seq<Opt>, x: Opt)
    requires IsSubsequence(a, b)
    ensures IsSubsequence(a + [x], b + [x]) && IsSubsequence(a, b + [x])
  {
    assert (a + [x])[..|a|] == a && (b + [x])[..|b|] == b;
  }

  lemma {:induction false} SubsequenceGrows(a: seq<Opt>, b: seq<Opt>, c: seq<Opt>)
    requires IsSubsequence(a, b)
    ensures IsSubsequence(a, b + c)
  {
    hide IsSubsequence;
    if c == [] {
      assert b + c == b;
    } else {
      var m := |c| - 1;
      SubsequenceGrows(a, b, c[..m]);
      SubsequenceSnoc(a, b + c[..m], c[m]);
      assert b + c == (b + c[..m]) + [c[m]];
    }
  }

  lemma {:induction false} SubsequenceTransitive(a: seq<Opt>, b: seq<Opt>, c: seq<Opt>)
    requires IsSubsequence(a, b) && IsSubsequence(b, c)
    ensures IsSubsequence(a, c)
    decreases |b| + |c|
  {
    if a != [] {
      var b', c' := b[..|b| - 1], c[..|c| - 1];
      if IsSubsequence(b, c') {
        SubsequenceTransitive(a, b, c');
      } else if IsSubsequence(a, b') {
        SubsequenceTransitive(a, b', c');
      } else {
        SubsequenceTransitive(a[..|a| - 1], b', c');
      }
    }
  }

  lemma {:induction false} SubsequenceElements(a: seq<Opt>, b: seq<Opt>)
    requires IsSubsequence(a, b)
    ensures forall o :: o in a ==> o in b
    decreases |b|
  {
    if a != [] {
      if IsSubsequence(a, b[..|b| - 1]) {
        SubsequenceElements(a, b[..|b| - 1]);
      } else {
        SubsequenceElements(a[..|a| - 1], b[..|b| - 1]);
        assert a == a[..|a| - 1] + [a[|a| - 1]];
      }
    }
  }

  lemma {:induction false} FilterNone(s: seq<Opt>, p: Opt -> bool)
    requires forall k :: 0 <= k < |s| ==> !p(s[k])
    ensures Filter(s, p) == []
  {
    if s != [] {
      FilterNone(s[..|s| - 1], p);
    }
  }

  /** What the walk leaves, among the options of interest, of the options it started from. */
  predicate Keeps(r: Outcome, s: seq<Opt>, p: Opt -> bool) {
    r.Cleaned? ==> IsSubsequence(r.options, s) && Filter(r.options, p) == Filter(s, p)
  }

  lemma KeepsMore(r: Outcome, s: seq<Opt>, x: Opt, gone: seq<Opt>, p: Opt -> bool)
    requires Keeps(r, s, p)
    requires forall k :: 0 <= k < |gone| ==> !p(gone[k])
    ensures Keeps(Then(r, [x]), s + [x] + gone, p)
  {
    hide IsSubsequence, Filter;
    if r.Cleaned? {
      SubsequenceSnoc(r.options, s, x);
      SubsequenceGrows(r.options + [x], s + [x], gone);
      FilterAppend(r.options, [x], p);
      FilterAppend(s, [x], p);
      FilterAppend(s + [x], gone, p);
      FilterNone(gone, p);
    }
  }

  lemma BlockRest(b: seq<Opt>, p: Opt -> bool)
    requires IsBlock(b) && forall o :: p(o) ==> !Modifier(o)
    ensures forall k :: 0 < k < |b| ==> !p(b[k])
  {
    hide StartsWith, Keyword;
  }

  /** The walk only removes modifiers. */
  lemma {:induction false} WalkKeeps(s: seq<Opt>, p: Opt -> bool)
    requires forall o :: p(o) ==> !Modifier(o)
    ensures Keeps(Walk(s), s, p)
  {
    if Walk(s).Cleaned? {
      hide Walk, IsHead, IsBlock, Then, Filter, IsSubsequence;
      var stopped, k := WalkCases(s);
      if stopped {
        SubsequenceSelf(s);
      } else {
        hide Keeps;
        WalkKeeps(s[..k], p);
        BlockRest(s[k..], p);
        BlockKeeps(s[..k], s[k..], p);
      }
    }
  }

  lemma BlockKeeps(s: seq<Opt>, b: seq<Opt>, p: Opt -> bool)
    requires Keeps(Walk(s), s, p) && b != [] && forall k :: 0 < k < |b| ==> !p(b[k])
    ensures Keeps(Then(Walk(s), [b[0]]), s + b, p)
  {
    hide Walk, Keeps, Then;
    KeepsMore(Walk(s), s, b[0], b[1..], p);
    assert s + [b[0]] + b[1..] == s + b;
  }

  lemma {:induction false} SubsequenceSelf(s: seq<Opt>)
    ensures IsSubsequence(s, s)
  {
    if s != [] {
      SubsequenceSelf(s[..|s| - 1]);
    }
  }

  lemma AnchorsStop(o: Opt)
    requires Anchor(o)
    ensures !Modifier(o) && !Unwanted(o) && Stops(o)
  {
    NamesApart(o);
  }

  /** The walk, seen from the loop. */
  lemma WalkedStep(kept: seq<Opt>)
    requires Walk(kept).Cleaned?
    ensures IsSubsequence(Walk(kept).options, kept)
    ensures Filter(Walk(kept).options, Anchor) == Filter(kept, Anchor)
  {
    forall o | Anchor(o)
      ensures !Modifier(o)
    {
      AnchorsStop(o);
    }
    WalkKeeps(kept, Anchor);
  }

  /** What the loop removes at an unwanted option holds no anchors. */
  lemma SkippedStep(options: seq<Opt>, idx: nat)
    requires idx < |options| && Unwanted(options[idx])
    ensures var next := Skip(options, idx + 1);
            Filter(options[idx..], Anchor) == Filter(options[next..], Anchor)
  {
    var next := Skip(options, idx + 1);
    var gone := options[idx..next];
    forall k | 0 <= k < |gone|
      ensures !Anchor(gone[k])
    {
      assert gone[k] == options[idx + k];
      if Anchor(gone[k]) {
        AnchorsStop(gone[k]);
      }
    }
    FilterNone(gone, Anchor);
    FilterAppend(gone, options[next..], Anchor);
    assert gone + options[next..] == options[idx..];
  }

  /** Cleaning never touches a content that is not negated, nor the sid: the cleaned rule has those
      of the rule, in their order. */
  lemma {:induction false} AnchorsKept(options: seq<Opt>, idx: nat, kept: seq<Opt>)
    requires idx <= |options|
    ensures var r := Clean(options, idx, kept);
            r.Cleaned? ==> Filter(r.options, Anchor) == Filter(kept, Anchor) + Filter(options[idx..], Anchor)
    decreases |options| - idx
  {
    if idx == |options| {
      assert options[idx..] == [];
    } else if Unwanted(options[idx]) {
      if Walk(kept).Cleaned? && Skip(options, idx + 1) < |options| {
        AnchorsKept(options, Skip(options, idx + 1), Walk(kept).options);
        WalkedStep(kept);
        SkippedStep(options, idx);
      }
    } else {
      AnchorsKept(options, idx + 1, kept + [options[idx]]);
      FilterAppend(kept, [options[idx]], Anchor);
      FilterAppend([options[idx]], options[idx + 1..], Anchor);
      assert [options[idx]] + options[idx + 1..] == options[idx..];
    }
  }

  /** No pcre and no negated content is left. */
  lemma {:induction false} UnwantedGone(options: seq<Opt>, idx: nat, kept: seq<Opt>)
    requires idx <= |options|
    requires forall o :: o in kept ==> !Unwanted(o)
    ensures var r := Clean(options, idx, kept);
            r.Cleaned? ==> forall o :: o in r.options ==> !Unwanted(o)
    decreases |options| - idx
  {
    hide Unwanted, Walk, Stops;
    if idx < |options| {
      if Unwanted(options[idx]) {
        if Walk(kept).Cleaned? && Skip(options, idx + 1) < |options| {
          WalkedStep(kept);
          SubsequenceElements(Walk(kept).options, kept);
          UnwantedGone(options, Skip(options, idx + 1), Walk(kept).options);
        }
      } else {
        UnwantedGone(options, idx + 1, kept + [options[idx]]);
      }
    }
  }

  /** Cleaning only removes. */
  lemma {:induction false} CleaningRemoves(options: seq<Opt>, idx: nat, kept: seq<Opt>)
    requires idx <= |options| && IsSubsequence(kept, options[..idx])
    ensures var r := Clean(options, idx, kept);
            r.Cleaned? ==> IsSubsequence(r.options, options)
    decreases |options| - idx
  {
    hide Unwanted, Walk, Stops, IsSubsequence;
    if idx == |options| {
      assert options[..idx] == options;
    } else if Unwanted(options[idx]) {
      var next := Skip(options, idx + 1);
      if Walk(kept).Cleaned? && next < |options| {
        WalkedStep(kept);
        SubsequenceTransitive(Walk(kept).options, kept, options[..idx]);
        SubsequenceGrows(Walk(kept).options, options[..idx], options[idx..next]);
        assert options[..idx] + options[idx..next] == options[..next];
        CleaningRemoves(options, next, Walk(kept).options);
      }
    } else {
      SubsequenceSnoc(kept, options[..idx], options[idx]);
      assert options[..idx] + [options[idx]] == options[..idx + 1];
      CleaningRemoves(options, idx + 1, kept + [options[idx]]);
    }
  }

  // ----- when the loop ends, and with what -----

  /** The walk forwards from an unwanted option passes over this one. */
  predicate PassedOver(options: seq<Opt>, i: nat)
    requires i < |options|
  {
    !Stops(options[i]) && i > 0 && (Unwanted(options[i - 1]) || PassedOver(options, i - 1))
  }

  /** An option is passed over exactly when a pcre or a negated content comes before it, and neither it
      nor any option between them is a sid, a content, a pcre or of a name that begins with "http.". */
  lemma {:induction false} PassedOverAre(options: seq<Opt>, i: nat)
    requires i < |options|
    ensures PassedOver(options, i) <==> exists j :: PassedFrom(options, j, i)
  {
    NamesAre(options[i]);
    hide Stops, Unwanted, Dropped, Ordinary;
    if i > 0 {
      NamesAre(options[i - 1]);
      PassedOverAre(options, i - 1);
      if PassedOver(options, i) {
        if Unwanted(options[i - 1]) {
          assert PassedFrom(options, i - 1, i);
        } else {
          var j :| PassedFrom(options, j, i - 1);
          assert PassedFrom(options, j, i);
        }
      }
      if j :| PassedFrom(options, j, i) {
        if j < i - 1 {
          assert PassedFrom(options, j, i - 1);
        }
      }
    }
  }

  ghost predicate PassedFrom(options: seq<Opt>, j: int, i: int) {
    0 <= j < i < |options| && Dropped(options[j]) && forall k :: j < k <= i ==> Ordinary(options[k])
  }

  /** The options kept when the loop comes to index i, or stops before it: each unwanted option costs
      what the walk backwards from it removes, and what is passed over after it. */
  function KeptBefore(options: seq<Opt>, i: nat): seq<Opt>
    requires i <= |options|
  {
    if i == 0 then []
    else
      var kept, o := KeptBefore(options, i - 1), options[i - 1];
      if Unwanted(o) then if Walk(kept).Cleaned? then Walk(kept).options else kept
      else if PassedOver(options, i - 1) then kept
      else kept + [o]
  }

  /** The walk backwards from an unwanted option runs off the front of the options kept before it. */
  predicate Stuck(options: seq<Opt>, i: nat) {
    i < |options| && Unwanted(options[i]) && !Walk(KeptBefore(options, i)).Cleaned?
  }

  /** An unwanted option after which nothing stops the walk forwards. */
  predicate Dangling(options: seq<Opt>, i: nat) {
    i < |options| && Unwanted(options[i]) && forall k :: i < k < |options| ==> !Stops(options[k])
  }

  lemma {:induction false} PassingKeeps(options: seq<Opt>, idx: nat, j: nat)
    requires idx < |options| && idx < j <= Skip(options, idx + 1) && Unwanted(options[idx])
    ensures KeptBefore(options, j) == KeptBefore(options, idx + 1)
    ensures forall k :: idx < k < j ==> PassedOver(options, k)
  {
    hide Walk, Unwanted, Stops;
    if j > idx + 1 {
      PassingKeeps(options, idx, j - 1);
      assert !Stops(options[j - 1]);
      assert PassedOver(options, j - 1);
      UnwantedStops(options[j - 1]);
    }
  }

  lemma UnwantedStops(o: Opt)
    ensures Unwanted(o) ==> Stops(o)
  {
  }

  ghost predicate SomeStuck(options: seq<Opt>, idx: nat) {
    exists i: nat :: idx <= i && Stuck(options, i)
  }

  ghost predicate SomeDangling(options: seq<Opt>, idx: nat) {
    exists i: nat :: idx <= i && Dangling(options, i)
  }

  /** Between an unwanted option and the next stop there is nothing else to fail at. */
  lemma NextAfter(options: seq<Opt>, idx: nat, next: nat)
    requires idx < |options| && Unwanted(options[idx]) && next == Skip(options, idx + 1)
    ensures SomeStuck(options, idx) <==> Stuck(options, idx) || SomeStuck(options, next)
    ensures SomeDangling(options, idx) <==> next == |options| || SomeDangling(options, next)
  {
    hide Walk, StartsWith, KeptBefore;
    forall i: nat | idx < i < next
      ensures !Unwanted(options[i])
    {
      UnwantedStops(options[i]);
    }
    if next == |options| {
      assert Dangling(options, idx);
    } else {
      assert Stops(options[next]);
      assert !Dangling(options, idx);
    }
  }

  lemma NextPlain(options: seq<Opt>, idx: nat)
    requires idx < |options| && !Unwanted(options[idx])
    ensures SomeStuck(options, idx) <==> SomeStuck(options, idx + 1)
    ensures SomeDangling(options, idx) <==> SomeDangling(options, idx + 1)
  {
    hide Walk, Stops, KeptBefore;
  }

  lemma {:induction false} LoopFrom(options: seq<Opt>, idx: nat)
    requires idx <= |options| && (idx < |options| ==> !PassedOver(options, idx))
    ensures Clean(options, idx, KeptBefore(options, idx))
            == if SomeStuck(options, idx) then BackwardIndexError
               else if SomeDangling(options, idx) then ForwardIndexError
               else Cleaned(KeptBefore(options, |options|))
    decreases |options| - idx
  {
    hide Walk, Stops, Unwanted, SomeStuck, SomeDangling;
    var kept := KeptBefore(options, idx);
    if idx == |options| {
      NothingLeft(options);
    } else if Unwanted(options[idx]) {
      var next := Skip(options, idx + 1);
      NextAfter(options, idx, next);
      PassingKeeps(options, idx, next);
      if Walk(kept).Cleaned? {
        if next < |options| {
          LoopFrom(options, next);
        } else {
          NothingLeft(options);
        }
      } else {
        WalkFails(kept);
      }
    } else {
      NextPlain(options, idx);
      if idx + 1 < |options| {
        assert !PassedOver(options, idx + 1);
      }
      LoopFrom(options, idx + 1);
    }
  }

  lemma NothingLeft(options: seq<Opt>)
    ensures !SomeStuck(options, |options|) && !SomeDangling(options, |options|)
  {
  }

  lemma WalkFails(s: seq<Opt>)
    requires !Walk(s).Cleaned?
    ensures Walk(s) == BackwardIndexError
  {
  }

  /** What the loop does with any options: it runs off the front if the walk from some unwanted option
      gets stuck; otherwise it runs off the end if some unwanted option dangles; otherwise it ends with
      the options kept. */
  lemma {:induction false} LoopEnds(options: seq<Opt>)
    ensures Clean(options, 0, [])
            == if SomeStuck(options, 0) then BackwardIndexError
               else if SomeDangling(options, 0) then ForwardIndexError
               else Cleaned(KeptBefore(options, |options|))
  {
    assert KeptBefore(options, 0) == [];
    hide Walk, Unwanted, Stops, Clean, SomeStuck, SomeDangling, KeptBefore;
    LoopFrom(options, 0);
  }

  /** A walk gets stuck exactly when the options kept before it are not a head followed by blocks. */
  lemma StuckUnparsed(options: seq<Opt>, i: nat)
    requires i < |options| && Unwanted(options[i])
    ensures Stuck(options, i) <==> !Parsable(KeptBefore(options, i))
  {
    hide Walk, KeptBefore, Parsable;
    WalkEnds(KeptBefore(options, i));
  }

  /** The promise of the loop: a rule that ends with its sid never runs off the end, it is cleaned
      exactly if no walk backwards gets stuck, and then its cleaned options are some of its options,
      in order, with no pcre and no negated content, and with every other content and every sid. */
  lemma {:induction false} CleanedRule(options: seq<Opt>)
    requires options != [] && options[|options| - 1].name == "sid"
    ensures var r := Clean(options, 0, []);
            && r != ForwardIndexError && (r.Cleaned? <==> !SomeStuck(options, 0))
            && (r.Cleaned? ==>
                  && IsSubsequence(r.options, options)
                  && (forall o :: o in r.options ==> !Unwanted(o))
                  && Filter(r.options, Anchor) == Filter(options, Anchor))
  {
    assert IsSubsequence([], []) && Filter([], Anchor) == [];
    hide Clean, Filter, IsSubsequence;
    var r := Clean(options, 0, []);
    LoopEnds(options);
    assert Stops(options[|options| - 1]) && !Unwanted(options[|options| - 1]);
    assert options[..0] == [] && options[0..] == options;
    AnchorsKept(options, 0, []);
    UnwantedGone(options, 0, []);
    CleaningRemoves(options, 0, []);
  }

  /** A pcre after which an http option belongs to the content that follows: only the pcre goes. */
  lemma ModifierOfNextIsKept()
    ensures var msg, uri := Opt("msg", ""), Opt("http.uri", "");
            var content, sid := Opt("content", "a"), Opt("sid", "1");
            Clean([msg, Opt("pcre", "/b/"), uri, content, sid], 0, []) == Cleaned([msg, uri, content, sid])
  {
    var msg, pcre, uri := Opt("msg", ""), Opt("pcre", "/b/"), Opt("http.uri", "");
    var content, sid := Opt("content", "a"), Opt("sid", "1");
    var options := [msg, pcre, uri, content, sid];
    assert Http(uri) && "a"[..1] == "a";
    assert !Unwanted(msg) && Unwanted(pcre) && !Unwanted(uri) && !Unwanted(content) && !Unwanted(sid);
    assert Walk([msg]) == Cleaned([msg]);
    assert Skip(options, 2) == 2;
    hide Unwanted, Walk, Skip;
    assert [] + [msg] == [msg] && [msg] + [uri] == [msg, uri];
    assert Clean(options, 0, []) == Clean(options, 1, [msg]);
    assert Clean(options, 1, [msg]) == Clean(options, 2, [msg]);
    assert Clean(options, 2, [msg]) == Clean(options, 3, [msg, uri]);
    assert Clean(options, 3, [msg, uri]) == Clean(options, 4, [msg, uri] + [content]);
    assert [msg, uri] + [content] == [msg, uri, content];
    assert Clean(options, 4, [msg, uri, content]) == Clean(options, 5, [msg, uri, content] + [sid]);
    assert [msg, uri, content] + [sid] == [msg, uri, content, sid];
  }

  /** The options of a rule before a pcre. */
  function Example(): seq<Opt> {
    [Opt("msg", ""), Opt("flow", ""), Opt("http.method", ""), Opt("content", "GET"), Opt("http.uri", "")]
  }

  /** A modifier that a kept content needs can be lost: before a pcre, the walk removes http.uri,
      steps over the content before it, and removes that content's own http.method too. */
  lemma KeptContentLosesModifier()
    ensures Walk(Example()) == Cleaned([Opt("msg", ""), Opt("flow", ""), Opt("content", "GET")])
    ensures Intended(Example()) == Example()[..4]
    ensures !Tidy(Example())
  {
    var s := Example();
    assert "msg"[0] == 'm' && "flow"[0] == 'f';
    assert !Modifier(s[0]) && !Modifier(s[1]) && !Dns(s[1]) && Http(s[2]) && Keyword(s[3]) && Http(s[4]);
    NamesApart(s[2]);
    NamesApart(s[3]);
    NamesApart(s[4]);
    assert Walk([s[0]]) == Cleaned([s[0]]);
    assert s[..4][|s[..4]| - 1] == s[3] && Intended(s[..4]) == s[..4];
    WalkAsIntended(s);
    hide Walk, Keyword, StartsWith;
    WalkUnfolds(s);
    WalkUnfolds(s[..3]);
    assert s[..3][..1] == [s[0]];
  }
}
