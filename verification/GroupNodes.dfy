/**
 What the groups found by et-analysis/met7.py hold, said of the document alone: the nodes below it
 and the paths to them, which of them are groups, their signatures and their statistics.
 */
module GroupNodes {
  import opened Text
  import opened GroupTree

  /** The dictionary has this value under the key; a repeated key would count where it is first. */
  ghost predicate Holds(data: Json, key: string, value: Json) {
    data.Obj? && exists i :: IsFirst(data.entries, i, key, value)
  }

  ghost predicate IsFirst(entries: seq<Entry>, i: int, key: string, value: Json) {
    && 0 <= i < |entries|
    && entries[i] == Entry(key, value)
    && forall j :: 0 <= j < i ==> entries[j].key != key
  }

  lemma {:induction false} LookupIs(entries: seq<Entry>, key: string, value: Json)
    ensures Lookup(entries, key) == Some(value) <==> exists i :: IsFirst(entries, i, key, value)
  {
    if entries != [] {
      LookupIs(entries[1..], key, value);
      var tail := entries[1..];
      if entries[0].key == key {
        if entries[0].value == value {
          assert IsFirst(entries, 0, key, value);
        }
      } else {
        if i :| IsFirst(tail, i, key, value) {
          assert forall j :: 0 < j < i + 1 ==> entries[j] == tail[j - 1];
          assert IsFirst(entries, i + 1, key, value);
        }
        if i :| IsFirst(entries, i, key, value) {
          assert forall j :: 0 <= j < |tail| ==> tail[j] == entries[j + 1];
          assert IsFirst(tail, i - 1, key, value);
        }
      }
    }
  }

  lemma FieldIs(data: Json, key: string, value: Json)
    ensures Field(data, key) == Some(value) <==> Holds(data, key, value)
  {
    if data.Obj? {
      LookupIs(data.entries, key, value);
    }
  }

  // ----- signatures -----

  /** `places` are the places, in order, of all the rules with a "sig_id", and `sigs` what is there. */
  ghost predicate IdPlaces(rules: seq<Json>, sigs: seq<Json>, places: seq<nat>) {
    && |places| == |sigs|
    && (forall k :: 0 <= k < |places| ==> places[k] < |rules| && Holds(rules[places[k]], "sig_id", sigs[k]))
    && (forall j, k :: 0 <= j < k < |places| ==> places[j] < places[k])
    && (forall i, v :: 0 <= i < |rules| && Holds(rules[i], "sig_id", v) ==> i in places)
  }

  ghost predicate ListsIds(rules: seq<Json>, sigs: seq<Json>) {
    exists places :: IdPlaces(rules, sigs, places)
  }

  function IdsOf(rule: Json): seq<Json> {
    var id := Field(rule, "sig_id");
    if id.Some? then [id.value] else []
  }

  lemma {:induction false} SigIdsSnoc(rules: seq<Json>, last: Json)
    ensures SigIds(rules + [last]) == SigIds(rules) + IdsOf(last)
  {
    if rules == [] {
      assert [last][1..] == [];
    } else {
      SigIdsSnoc(rules[1..], last);
      assert (rules + [last])[1..] == rules[1..] + [last];
      Regroup(IdsOf(rules[0]), SigIds(rules[1..]), IdsOf(last));
    }
  }

  lemma PlacesMore(rules: seq<Json>, last: Json, sigs: seq<Json>, places: seq<nat>)
    requires IdPlaces(rules, sigs, places)
    ensures IdsOf(last) == [] ==> IdPlaces(rules + [last], sigs, places)
    ensures IdsOf(last) != [] ==> IdPlaces(rules + [last], sigs + IdsOf(last), places + [|rules|])
  {
    hide Holds, Field;
    var more := rules + [last];
    var id := Field(last, "sig_id");
    forall v
      ensures Holds(last, "sig_id", v) <==> id == Some(v)
    {
      FieldIs(last, "sig_id", v);
    }
    assert forall i :: 0 <= i < |rules| ==> more[i] == rules[i];
    if id.Some? {
      var all := places + [|rules|];
      assert forall i, v :: 0 <= i < |more| && Holds(more[i], "sig_id", v) ==> i in all by {
        forall i, v | 0 <= i < |more| && Holds(more[i], "sig_id", v)
          ensures i in all
        {
          if i < |rules| {
            assert i in places;
          } else {
            assert all[|places|] == i;
          }
        }
      }
    }
  }

  lemma {:induction false} SigIdsListed(rules: seq<Json>) returns (places: seq<nat>)
    ensures IdPlaces(rules, SigIds(rules), places)
  {
    if rules == [] {
      places := [];
    } else {
      var init, last := rules[..|rules| - 1], rules[|rules| - 1];
      assert rules == init + [last];
      places := SigIdsListed(init);
      SigIdsSnoc(init, last);
      PlacesMore(init, last, SigIds(init), places);
      assert IdsOf(last) == [] ==> SigIds(init) + IdsOf(last) == SigIds(init);
      if IdsOf(last) != [] {
        places := places + [|init|];
      }
    }
  }

  /** Two increasing lists of the same numbers are equal. */
  lemma {:induction false} IncreasingUnique(ps: seq<nat>, qs: seq<nat>)
    requires forall j, k :: 0 <= j < k < |ps| ==> ps[j] < ps[k]
    requires forall j, k :: 0 <= j < k < |qs| ==> qs[j] < qs[k]
    requires forall p :: p in ps <==> p in qs
    ensures ps == qs
    decreases |ps| + |qs|, |qs|
  {
    if ps == [] && qs != [] {
      IncreasingUnique(qs, ps);
    } else if ps != [] {
      var m := |ps| - 1;
      assert ps[m] in qs;
      var n := |qs| - 1;
      assert qs[n] in ps;
      assert ps[m] == qs[n];
      forall p
        ensures p in ps[..m] <==> p in qs[..n]
      {
        assert p in ps[..m] ==> p in ps && p < ps[m];
        assert p in qs[..n] ==> p in qs && p < qs[n];
      }
      IncreasingUnique(ps[..m], qs[..n]);
      assert ps == ps[..m] + [ps[m]] && qs == qs[..n] + [qs[n]];
    }
  }

  lemma HoldsUnique(data: Json, key: string, v: Json, w: Json)
    requires Holds(data, key, v) && Holds(data, key, w)
    ensures v == w
  {
    FieldIs(data, key, v);
    FieldIs(data, key, w);
  }

  lemma IdsUnique(rules: seq<Json>, sigs: seq<Json>, ps: seq<nat>, others: seq<Json>, qs: seq<nat>)
    requires IdPlaces(rules, sigs, ps) && IdPlaces(rules, others, qs)
    ensures sigs == others
  {
    hide Holds;
    forall p
      ensures p in ps <==> p in qs
    {
      if k :| 0 <= k < |ps| && ps[k] == p {
        assert Holds(rules[p], "sig_id", sigs[k]);
      }
      if k :| 0 <= k < |qs| && qs[k] == p {
        assert Holds(rules[p], "sig_id", others[k]);
      }
    }
    IncreasingUnique(ps, qs);
    forall k | 0 <= k < |sigs|
      ensures sigs[k] == others[k]
    {
      HoldsUnique(rules[ps[k]], "sig_id", sigs[k], others[k]);
    }
  }

  /** The signatures of some rules are the values under "sig_id", one for each rule that has the key,
      in the order of the rules. */
  lemma SigIdsAre(rules: seq<Json>, sigs: seq<Json>)
    ensures sigs == SigIds(rules) <==> ListsIds(rules, sigs)
  {
    var places := SigIdsListed(rules);
    if qs :| IdPlaces(rules, sigs, qs) {
      IdsUnique(rules, sigs, qs, SigIds(rules), places);
    }
  }

  /** A value is among the signatures exactly when some rule has it. */
  lemma SigIdsMembers(rules: seq<Json>, sigs: seq<Json>, value: Json)
    requires ListsIds(rules, sigs)
    ensures value in sigs <==> exists i :: 0 <= i < |rules| && Holds(rules[i], "sig_id", value)
  {
    hide Holds;
    var places :| IdPlaces(rules, sigs, places);
    if k :| 0 <= k < |sigs| && sigs[k] == value {
      assert Holds(rules[places[k]], "sig_id", value);
    }
    if i :| 0 <= i < |rules| && Holds(rules[i], "sig_id", value) {
      var k :| 0 <= k < |places| && places[k] == i;
      HoldsUnique(rules[i], "sig_id", value, sigs[k]);
    }
  }

  // ----- groups -----

  ghost predicate HasSigs(rulegroup: Json, sigs: seq<Json>) {
    if rules :| Holds(rulegroup, "rules", Arr(rules)) then ListsIds(rules, sigs) else sigs == []
  }

  /** The node's own statistics count unless they are null, then those of the rulegroup. */
  ghost predicate HasStats(data: Json, rulegroup: Json, stats: Json) {
    if Holds(data, "stats", stats) && stats != Null then true
    else
      && (forall v :: Holds(data, "stats", v) ==> v == Null)
      && (Holds(rulegroup, "stats", stats) || (stats == Obj([]) && forall v :: !Holds(rulegroup, "stats", v)))
  }

  /** The group that this node, found at this path, stands for. */
  ghost predicate Describes(g: Group, node: Json, path: seq<string>) {
    g.path == path
    && exists rulegroup ::
         Holds(node, "rulegroup", rulegroup) && HasSigs(rulegroup, g.sigs) && HasStats(node, rulegroup, g.stats)
  }

  lemma FieldHeld(data: Json, key: string)
    ensures var f := Field(data, key);
            if f.Some? then forall v :: Holds(data, key, v) <==> v == f.value else forall v :: !Holds(data, key, v)
  {
    hide Holds, Field;
    forall v
      ensures Holds(data, key, v) <==> Field(data, key) == Some(v)
    {
      FieldIs(data, key, v);
    }
  }

  lemma HasSigsIs(rulegroup: Json, sigs: seq<Json>)
    ensures var rules := Field(rulegroup, "rules");
            HasSigs(rulegroup, sigs)
            <==> sigs == if rules.Some? && rules.value.Arr? then SigIds(rules.value.items) else []
  {
    hide Holds, Field, ListsIds;
    FieldHeld(rulegroup, "rules");
    var rules := Field(rulegroup, "rules");
    if rules.Some? && rules.value.Arr? {
      SigIdsAre(rules.value.items, sigs);
      assert rules.value == Arr(rules.value.items);
    }
  }

  lemma HasStatsIs(data: Json, rulegroup: Json, stats: Json)
    ensures var own, inner := Field(data, "stats"), Field(rulegroup, "stats");
            HasStats(data, rulegroup, stats)
            <==> stats == if own.Some? && own.value != Null then own.value
                          else if inner.Some? then inner.value else Obj([])
  {
    hide Holds, Field;
    FieldHeld(data, "stats");
    FieldHeld(rulegroup, "stats");
    var inner := Field(rulegroup, "stats");
    var own := Field(data, "stats");
    assert own.Some? ==> Holds(data, "stats", own.value);
    assert inner.Some? ==> Holds(rulegroup, "stats", inner.value);
  }

  lemma OwnIs(data: Json, path: seq<string>, g: Group)
    ensures g in Own(data, path) <==> Describes(g, data, path)
  {
    hide Holds, Field, ListsIds, HasSigs, HasStats;
    FieldHeld(data, "rulegroup");
    var rulegroup := Field(data, "rulegroup");
    if rulegroup.Some? {
      HasSigsIs(rulegroup.value, g.sigs);
      HasStatsIs(data, rulegroup.value, g.stats);
    }
  }

  // ----- paths -----

  function Reading(s: string): int {
    if s == "" then 0 else 10 * Reading(s[..|s| - 1]) + (s[|s| - 1] as int - '0' as int)
  }

  predicate IsDigit(c: char) {
    '0' <= c <= '9'
  }

  /** The decimal numeral of a number, without leading zeros. */
  ghost predicate Numeral(s: string, n: nat) {
    && s != "" && (forall k :: 0 <= k < |s| ==> IsDigit(s[k])) && (s[0] == '0' ==> |s| == 1)
    && Reading(s) == n
  }

  lemma {:induction false} ReadingPositive(s: string)
    requires s != "" && (forall k :: 0 <= k < |s| ==> IsDigit(s[k])) && s[0] != '0'
    ensures Reading(s) > 0
  {
    if |s| > 1 {
      ReadingPositive(s[..|s| - 1]);
    } else {
      assert s[..0] == "";
    }
  }

  lemma NumeralMore(s: string, n: nat, k: nat)
    requires Numeral(s, n) && n > 0 && k < 10
    ensures Numeral(s + [k as char + '0'], 10 * n + k)
  {
    var more := s + [k as char + '0'];
    assert more[..|more| - 1] == s;
    if |s| == 1 {
      assert s[..0] == "";
      assert Reading(s) == 10 * 0 + (s[0] as int - '0' as int);
    }
    assert s[0] != '0';
    assert IsDigit(more[|s|]) && Reading(more) == 10 * Reading(s) + k;
    assert forall j :: 0 <= j < |s| ==> more[j] == s[j];
  }

  lemma {:induction false} DigitsRead(n: nat)
    ensures Numeral(Digits(n), n)
  {
    if n < 10 {
      assert Digits(n) == "" + [n as char + '0'] == [n as char + '0'];
      assert [n as char + '0'][..0] == "";
    } else {
      DigitsRead(n / 10);
      NumeralMore(Digits(n / 10), n / 10, n % 10);
    }
  }

  lemma NumeralStep(s: string, n: nat)
    requires Numeral(s, n)
    ensures |s| == 1 ==> n < 10 && s[0] == n as char + '0'
    ensures |s| > 1 ==> n >= 10 && Numeral(s[..|s| - 1], n / 10) && s[|s| - 1] == (n % 10) as char + '0'
  {
    var init, d := s[..|s| - 1], s[|s| - 1];
    assert IsDigit(d);
    if |s| == 1 {
      assert init == "";
      assert Reading(init) == 0;
    } else {
      ReadingPositive(init);
    }
  }

  /** The path component of a list element is the numeral of its place. */
  lemma {:induction false} DigitsAre(n: nat, s: string)
    ensures s == Digits(n) <==> Numeral(s, n)
    decreases n
  {
    DigitsRead(n);
    if Numeral(s, n) {
      NumeralStep(s, n);
      if |s| > 1 {
        DigitsAre(n / 10, s[..|s| - 1]);
      }
      assert s == s[..|s| - 1] + [s[|s| - 1]];
    }
  }

  /** One step down: a value of a dictionary by its key, an element of a list by its number. */
  ghost predicate Child(data: Json, name: string, child: Json) {
    || (data.Obj? && Entry(name, child) in data.entries)
    || (data.Arr? && exists i :: 0 <= i < |data.items| && data.items[i] == child && Numeral(name, i))
  }

  /** The node is below `data` at the relative path. */
  ghost predicate Reaches(data: Json, rel: seq<string>, node: Json)
    decreases |rel|
  {
    if rel == [] then node == data
    else exists child :: Child(data, rel[0], child) && Reaches(child, rel[1..], node)
  }

  /** A group of this kind is somewhere below. */
  ghost predicate Below(data: Json, path: seq<string>, g: Group) {
    exists rel, node :: Reaches(data, rel, node) && Describes(g, node, path + rel)
  }

  lemma BelowStep(data: Json, path: seq<string>, g: Group)
    ensures Below(data, path, g)
            <==> Describes(g, data, path)
                 || exists name, child :: Child(data, name, child) && Below(child, path + [name], g)
  {
    hide Describes, Child;
    if Below(data, path, g) {
      var rel, node :| Reaches(data, rel, node) && Describes(g, node, path + rel);
      if rel == [] {
        assert path + rel == path;
      } else {
        var child :| Child(data, rel[0], child) && Reaches(child, rel[1..], node);
        assert path + [rel[0]] + rel[1..] == path + rel;
        assert Below(child, path + [rel[0]], g);
      }
    }
    if Describes(g, data, path) {
      var none: seq<string> := [];
      assert path + none == path;
      assert Reaches(data, none, data);
    }
    if name, child :| Child(data, name, child) && Below(child, path + [name], g) {
      var rel, node :| Reaches(child, rel, node) && Describes(g, node, path + [name] + rel);
      assert ([name] + rel)[1..] == rel;
      assert path + [name] + rel == path + ([name] + rel);
      assert Reaches(data, [name] + rel, node);
    }
  }

  /** The groups of a document are exactly those that the nodes below it describe, each with the path
      of its node. */
  lemma {:induction false} GroupsAre(data: Json, path: seq<string>, g: Group)
    ensures g in Extract(data, path) <==> Below(data, path, g)
    decreases data, 1
  {
    OwnIs(data, path, g);
    BelowStep(data, path, g);
    ExtractUnfolds(data, path);
    hide Extract, Describes, Below, Own, Numeral;
    match data
    case Obj(entries) =>
      EntryGroupsAre(entries, path, g);
      assert forall i :: 0 <= i < |entries| ==> Entry(entries[i].key, entries[i].value) == entries[i];
    case Arr(items) =>
      ItemGroupsAre(items, path, 0, g);
      assert forall i :: 0 <= i < |items| ==>
          (ItemBelow(items, path, 0, i, g) <==> Below(items[i], path + [Digits(i)], g));
      NotOwn(data, path, g);
      ItemChildren(data, path, g);
    case Scalar(_) => NotOwn(data, path, g);
    case Null => NotOwn(data, path, g);
  }

  lemma NotOwn(data: Json, path: seq<string>, g: Group)
    requires !data.Obj?
    ensures !Describes(g, data, path)
  {
  }

  lemma ItemChildren(data: Json, path: seq<string>, g: Group)
    requires data.Arr?
    ensures (exists name, child :: Child(data, name, child) && Below(child, path + [name], g))
            <==> exists i :: 0 <= i < |data.items| && Below(data.items[i], path + [Digits(i)], g)
  {
    hide Below, Digits, Numeral;
    if name, child :| Child(data, name, child) && Below(child, path + [name], g) {
      var i :| 0 <= i < |data.items| && data.items[i] == child && Numeral(name, i);
      DigitsAre(i, name);
    }
    if i :| 0 <= i < |data.items| && Below(data.items[i], path + [Digits(i)], g) {
      DigitsAre(i, Digits(i));
      assert Child(data, Digits(i), data.items[i]);
    }
  }

  lemma {:induction false} EntryGroupsAre(entries: seq<Entry>, path: seq<string>, g: Group)
    ensures g in ExtractEntries(entries, path)
            <==> exists i :: 0 <= i < |entries| && Below(entries[i].value, path + [entries[i].key], g)
    decreases entries, 0
  {
    hide Below, Extract;
    if entries != [] {
      var tail := entries[1..];
      GroupsAre(entries[0].value, path + [entries[0].key], g);
      EntryGroupsAre(tail, path, g);
      assert forall i :: 0 <= i < |tail| ==> tail[i] == entries[i + 1];
      assert forall i :: 0 < i < |entries| ==> entries[i] == tail[i - 1];
    }
  }

  ghost predicate ItemBelow(items: seq<Json>, path: seq<string>, from: nat, i: int, g: Group) {
    0 <= i < |items| && Below(items[i], path + [Digits(from + i)], g)
  }

  lemma {:induction false} ItemGroupsAre(items: seq<Json>, path: seq<string>, from: nat, g: Group)
    ensures g in ExtractItems(items, path, from) <==> exists i :: ItemBelow(items, path, from, i, g)
    decreases items, 0
  {
    hide Below, Extract, Digits;
    if items != [] {
      var tail := items[1..];
      GroupsAre(items[0], path + [Digits(from)], g);
      ItemGroupsAre(tail, path, from + 1, g);
      var next := from + 1;
      if i :| ItemBelow(tail, path, next, i, g) {
        ItemBelowMoves(items, path, from, i + 1, g);
      }
      if i :| ItemBelow(items, path, from, i, g) {
        ItemBelowMoves(items, path, from, i, g);
      }
      assert Below(items[0], path + [Digits(from)], g) <==> ItemBelow(items, path, from, 0, g);
    }
  }

  lemma ItemBelowMoves(items: seq<Json>, path: seq<string>, from: nat, i: nat, g: Group)
    requires 0 < |items|
    ensures i > 0 ==> (ItemBelow(items, path, from, i, g) <==> ItemBelow(items[1..], path, from + 1, i - 1, g))
  {
    assert i > 0 ==> from + 1 + (i - 1) == from + i;
  }

  // ----- the filter -----

  /** The node below a list of keys, which a filter reads in dictionaries only. */
  ghost predicate Leads(data: Json, keys: seq<string>, node: Json)
    decreases |keys|
  {
    if keys == [] then node == data
    else exists child :: Holds(data, keys[0], child) && Leads(child, keys[1..], node)
  }

  lemma {:induction false} DescendIs(data: Json, keys: seq<string>, node: Json)
    ensures Descend(data, keys) == Some(node) <==> Leads(data, keys, node)
    decreases |keys|
  {
    hide Holds, Field;
    if keys != [] {
      FieldHeld(data, keys[0]);
      var child := Field(data, keys[0]);
      if child.Some? {
        DescendIs(child.value, keys[1..], node);
      }
    }
  }

  ghost predicate BelowKeys(data: Json, keys: seq<string>, g: Group) {
    exists node :: Leads(data, keys, node) && Below(node, keys, g)
  }

  /** What is returned for a filter: the groups below the node that its keys lead to, with their whole
      paths; without a filter, all groups. */
  lemma FilteredAre(data: Json, filter: string, g: Group)
    ensures g in Filtered(data, filter)
            <==> if filter == "" then Below(data, [], g) else BelowKeys(data, Split(filter, '.'), g)
  {
    hide Extract, Below, Leads, Split, Descend;
    if filter == "" {
      GroupsAre(data, [], g);
    } else {
      var keys := Split(filter, '.');
      var found := Descend(data, keys);
      if found.Some? {
        var node := found.value;
        DescendIs(data, keys, node);
        GroupsAre(node, keys, g);
        assert Leads(data, keys, node) && Filtered(data, filter) == Extract(node, keys);
      }
      if node :| Leads(data, keys, node) && Below(node, keys, g) {
        DescendIs(data, keys, node);
        GroupsAre(node, keys, g);
      }
    }
  }

  // ----- no group twice -----

  /** No dictionary in the document repeats a key. */
  ghost predicate AllUnique(data: Json)
    decreases data
  {
    match data
    case Obj(entries) => UniqueKeys(entries) && forall i :: 0 <= i < |entries| ==> AllUnique(entries[i].value)
    case Arr(items) => forall i :: 0 <= i < |items| ==> AllUnique(items[i])
    case Scalar(_) => true
    case Null => true
  }

  ghost predicate PreOrder(groups: seq<Group>) {
    forall j, k :: 0 <= j < k < |groups| ==> !(groups[k].path <= groups[j].path)
  }

  lemma PreOrderAppend(gs: seq<Group>, hs: seq<Group>)
    requires PreOrder(gs) && PreOrder(hs)
    requires forall g, h :: g in gs && h in hs ==> !(h.path <= g.path)
    ensures PreOrder(gs + hs)
  {
  }

  /** No node is listed twice, and every node comes before those below it. */
  lemma {:induction false} GroupsInPreOrder(data: Json, path: seq<string>)
    requires AllUnique(data)
    ensures PreOrder(Extract(data, path))
    decreases data, 1
  {
    ExtractUnfolds(data, path);
    hide Extract;
    match data
    case Obj(entries) =>
      EntriesInPreOrder(entries, path);
      EntriesDeeper(entries, path);
    case Arr(items) =>
      ItemsInPreOrder(items, path, 0);
    case Scalar(_) =>
    case Null =>
  }

  lemma {:induction false} EntriesDeeper(entries: seq<Entry>, path: seq<string>)
    ensures forall g :: g in ExtractEntries(entries, path) ==>
              |g.path| > |path| && path <= g.path && exists i :: 0 <= i < |entries| && g.path[|path|] == entries[i].key
  {
    hide Extract;
    if entries != [] {
      EntriesDeeper(entries[1..], path);
      PathsBelow(entries[0].value, path + [entries[0].key]);
      var tail := entries[1..];
      assert forall i :: 0 <= i < |tail| ==> tail[i] == entries[i + 1];
    }
  }

  lemma {:induction false} EntriesInPreOrder(entries: seq<Entry>, path: seq<string>)
    requires UniqueKeys(entries) && forall i :: 0 <= i < |entries| ==> AllUnique(entries[i].value)
    ensures PreOrder(ExtractEntries(entries, path))
    decreases entries, 0
  {
    hide Extract, AllUnique;
    if entries != [] {
      GroupsInPreOrder(entries[0].value, path + [entries[0].key]);
      EntriesInPreOrder(entries[1..], path);
      PathsBelow(entries[0].value, path + [entries[0].key]);
      EntriesDeeper(entries[1..], path);
    }
  }

  ghost predicate UnderItem(g: Group, path: seq<string>, from: nat) {
    |g.path| > |path| && path <= g.path && exists i :: from <= i && g.path[|path|] == Digits(i)
  }

  lemma {:induction false} ItemsDeeper(items: seq<Json>, path: seq<string>, from: nat)
    ensures forall g :: g in ExtractItems(items, path, from) ==> UnderItem(g, path, from)
  {
    hide Extract, Digits;
    if items != [] {
      ItemsDeeper(items[1..], path, from + 1);
      PathsBelow(items[0], path + [Digits(from)]);
      assert (path + [Digits(from)])[|path|] == Digits(from);
      forall g | g in ExtractItems(items, path, from)
        ensures UnderItem(g, path, from)
      {
        if g in Extract(items[0], path + [Digits(from)]) {
          assert g.path[|path|] == Digits(from);
        } else {
          assert UnderItem(g, path, from + 1);
        }
      }
    }
  }

  lemma DigitsDistinct(m: nat, n: nat)
    ensures Digits(m) == Digits(n) <==> m == n
  {
    hide Digits;
    DigitsAre(m, Digits(m));
    DigitsAre(n, Digits(n));
  }

  lemma {:induction false} ItemsInPreOrder(items: seq<Json>, path: seq<string>, from: nat)
    requires forall i :: 0 <= i < |items| ==> AllUnique(items[i])
    ensures PreOrder(ExtractItems(items, path, from))
    decreases items, 0
  {
    hide Extract, AllUnique, Digits;
    if items != [] {
      GroupsInPreOrder(items[0], path + [Digits(from)]);
      ItemsInPreOrder(items[1..], path, from + 1);
      PathsBelow(items[0], path + [Digits(from)]);
      ItemsDeeper(items[1..], path, from + 1);
      forall i: nat
        ensures Digits(i) == Digits(from) <==> i == from
      {
        DigitsDistinct(i, from);
      }
      assert forall g :: g in Extract(items[0], path + [Digits(from)]) ==>
          g.path[|path|] == (path + [Digits(from)])[|path|] == Digits(from);
      PreOrderAppend(Extract(items[0], path + [Digits(from)]), ExtractItems(items[1..], path, from + 1));
    }
  }

  // ----- the names of the levels -----

  ghost predicate NamesLevel(name: string, entry: Entry) {
    name == entry.key || NamesSubLevel(name, entry)
  }

  ghost predicate NamesSubLevel(name: string, entry: Entry) {
    && entry.value.Obj?
    && exists sub :: sub in entry.value.entries && name == entry.key + "." + sub.key
  }

  lemma {:induction false} SubNamesAre(key: string, entries: seq<Entry>, name: string)
    ensures name in SubNames(key, entries) <==> exists sub :: sub in entries && name == key + "." + sub.key
  {
    if entries != [] {
      var init, last := entries[..|entries| - 1], entries[|entries| - 1];
      SubNamesAre(key, init, name);
      assert entries == init + [last];
    }
  }

  /** The levels of a document are named by its keys, and by each of them with a key of the dictionary
      below it. */
  lemma {:induction false} LevelNamesAre(entries: seq<Entry>, name: string)
    ensures name in LevelNames(entries) <==> exists entry :: entry in entries && NamesLevel(name, entry)
  {
    if entries != [] {
      var init, last := entries[..|entries| - 1], entries[|entries| - 1];
      LevelNamesAre(init, name);
      assert entries == init + [last];
      if last.value.Obj? {
        SubNamesAre(last.key, last.value.entries, name);
      }
      assert name in NamesOf(last) <==> NamesLevel(name, last);
    }
  }
}
