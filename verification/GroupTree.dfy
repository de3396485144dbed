/**
 The traversal of et-analysis/met7.py: every dictionary with a "rulegroup" key, anywhere in a JSON
 document, is a group; groups are listed in pre-order with their path, for the whole document or
 for the part below a dotted path.
 */
module GroupTree {
  import opened Text

  /** A dictionary lists its entries in order of insertion. */
  datatype Json = Obj(entries: seq<Entry>) | Arr(items: seq<Json>) | Scalar(text: string) | Null

  datatype Entry = Entry(key: string, value: Json)

  datatype Group = Group(path: seq<string>, sigs: seq<Json>, stats: Json)

  function Lookup(entries: seq<Entry>, key: string): Option<Json> {
    if entries == [] then None
    else if entries[0].key == key then Some(entries[0].value)
    else Lookup(entries[1..], key)
  }

  function Field(j: Json, key: string): Option<Json> {
    if j.Obj? then Lookup(j.entries, key) else None
  }

  /** The values of "sig_id" of those rules that have one. */
  function SigIds(rules: seq<Json>): seq<Json> {
    if rules == [] then []
    else
      var id := Field(rules[0], "sig_id");
      (if id.Some? then [id.value] else []) + SigIds(rules[1..])
  }

  /** The group of a node that has a rulegroup: its signatures, and the node's own statistics or
      else those of the rulegroup. */
  function GroupAt(data: Json, path: seq<string>): Option<Group> {
    var rg := Field(data, "rulegroup");
    if rg.None? then None
    else
      var rules := Field(rg.value, "rules");
      var sigs := if rules.Some? && rules.value.Arr? then SigIds(rules.value.items) else [];
      var own := Field(data, "stats");
      var inner := Field(rg.value, "stats");
      var stats := if own.Some? && own.value != Null then own.value else if inner.Some? then inner.value else Obj([]);
      Some(Group(path, sigs, stats))
  }

  function Own(data: Json, path: seq<string>): seq<Group> {
    var g := GroupAt(data, path);
    if g.Some? then [g.value] else []
  }

  function Digits(n: nat): string {
    (if n < 10 then "" else Digits(n / 10)) + [(n % 10) as char + '0']
  }

  /** The groups of a document in pre-order. */
  function Extract(data: Json, path: seq<string>): seq<Group>
    decreases data, 1
  {
    match data
    case Obj(entries) => Own(data, path) + ExtractEntries(entries, path)
    case Arr(items) => ExtractItems(items, path, 0)
    case Scalar(_) => []
    case Null => []
  }

  function ExtractEntries(entries: seq<Entry>, path: seq<string>): seq<Group>
    decreases entries, 0
  {
    if entries == [] then []
    else Extract(entries[0].value, path + [entries[0].key]) + ExtractEntries(entries[1..], path)
  }

  function ExtractItems(items: seq<Json>, path: seq<string>, from: nat): seq<Group>
    decreases items, 0
  {
    if items == [] then [] else Extract(items[0], path + [Digits(from)]) + ExtractItems(items[1..], path, from + 1)
  }

  lemma ExtractUnfolds(data: Json, path: seq<string>)
    ensures data.Obj? ==> Extract(data, path) == Own(data, path) + ExtractEntries(data.entries, path)
    ensures data.Arr? ==> Extract(data, path) == ExtractItems(data.items, path, 0)
    ensures data.Scalar? || data.Null? ==> Extract(data, path) == []
  {
  }

  lemma EntriesStep(entries: seq<Entry>, i: nat, path: seq<string>)
    requires i <= |entries|
    ensures i < |entries| ==>
      ExtractEntries(entries[i..], path)
      == Extract(entries[i].value, path + [entries[i].key]) + ExtractEntries(entries[i + 1..], path)
    ensures i == |entries| ==> ExtractEntries(entries[i..], path) == []
  {
    if i < |entries| {
      assert entries[i..][1..] == entries[i + 1..];
    }
  }

  lemma ItemsStep(items: seq<Json>, i: nat, path: seq<string>)
    requires i <= |items|
    ensures i < |items| ==>
      ExtractItems(items[i..], path, i)
      == Extract(items[i], path + [Digits(i)]) + ExtractItems(items[i + 1..], path, i + 1)
    ensures i == |items| ==> ExtractItems(items[i..], path, i) == []
  {
    if i < |items| {
      assert items[i..][1..] == items[i + 1..];
    }
  }

  /** The shared list that the recursion appends to. */
  class GroupList {
    var groups: seq<Group>

    constructor ()
      ensures groups == []
    {
      groups := [];
    }

    /** `recursive_extract_groups`. */
    method ExtractInto(data: Json, path: seq<string>)
      modifies this
      ensures groups == old(groups) + Extract(data, path)
      decreases data
    {
      hide Extract, ExtractEntries, ExtractItems, GroupAt;
      ExtractUnfolds(data, path);
      ghost var start := groups;
      match data
      case Obj(entries) =>
        var g := GroupAt(data, path);
        if g.Some? {
          groups := groups + [g.value];
        }
        ghost var before := groups;
        assert before == start + Own(data, path);
        assert entries[0..] == entries;
        for i := 0 to |entries|
          invariant groups + ExtractEntries(entries[i..], path) == before + ExtractEntries(entries, path)
        {
          EntriesStep(entries, i, path);
          ghost var now := groups;
          ExtractInto(entries[i].value, path + [entries[i].key]);
          Regroup(now, Extract(entries[i].value, path + [entries[i].key]), ExtractEntries(entries[i + 1..], path));
        }
        EntriesStep(entries, |entries|, path);
        Regroup(start, Own(data, path), ExtractEntries(entries, path));
      case Arr(items) =>
        assert items[0..] == items;
        for i := 0 to |items|
          invariant groups + ExtractItems(items[i..], path, i) == start + ExtractItems(items, path, 0)
        {
          ItemsStep(items, i, path);
          ghost var now := groups;
          ExtractInto(items[i], path + [Digits(i)]);
          Regroup(now, Extract(items[i], path + [Digits(i)]), ExtractItems(items[i + 1..], path, i + 1));
        }
        ItemsStep(items, |items|, path);
      case Scalar(_) =>
      case Null =>
    }
  }

  /** The node below a list of keys. */
  function Descend(data: Json, keys: seq<string>): Option<Json>
    decreases keys
  {
    if keys == [] then Some(data)
    else
      var child := Field(data, keys[0]);
      if child.Some? then Descend(child.value, keys[1..]) else None
  }

  /** What `extract_groups` returns; an empty filter is no filter. */
  function Filtered(data: Json, filter: string): seq<Group> {
    if filter == "" then Extract(data, [])
    else
      var keys := Split(filter, '.');
      var node := Descend(data, keys);
      if node.Some? then Extract(node.value, keys) else []
  }

  /** `extract_groups`. */
  method ExtractGroups(data: Json, filter: string) returns (groups: seq<Group>)
    ensures groups == Filtered(data, filter)
  {
    hide Extract, Field, Split;
    var node := data;
    var path: seq<string> := [];
    if filter != "" {
      path := Split(filter, '.');
      assert path[0..] == path;
      for i := 0 to |path|
        invariant Descend(data, path) == Descend(node, path[i..])
      {
        assert path[i..][0] == path[i] && path[i..][1..] == path[i + 1..];
        var child := Field(node, path[i]);
        if child.None? {
          return [];
        }
        node := child.value;
      }
    }
    var list := new GroupList();
    list.ExtractInto(node, path);
    groups := list.groups;
  }

  // ----- levels -----

  /** A dictionary has no repeated keys. */
  ghost predicate UniqueKeys(entries: seq<Entry>) {
    forall j, k :: 0 <= j < k < |entries| ==> entries[j].key != entries[k].key
  }

  lemma {:induction false} LookupAt(entries: seq<Entry>, i: nat)
    requires UniqueKeys(entries) && i < |entries|
    ensures Lookup(entries, entries[i].key) == Some(entries[i].value)
  {
    if i > 0 {
      assert entries[0].key != entries[i].key;
      LookupAt(entries[1..], i - 1);
    }
  }

  /** A key that a dotted path can name. */
  predicate Plain(key: string) {
    '.' !in key
  }

  /** The level below some keys: the string that `analyze_levels` builds for them, used as a
      filter, finds exactly the groups below that node, with their full paths. */
  lemma LevelIsSubtree(data: Json, keys: seq<string>, node: Json)
    requires keys != [] && Join(keys, '.') != "" && forall k :: 0 <= k < |keys| ==> Plain(keys[k])
    requires Descend(data, keys) == Some(node)
    ensures Filtered(data, Join(keys, '.')) == Extract(node, keys)
  {
    SplitJoin(keys, '.');
  }

  /** Every group lies below the path that its extraction started from. */
  lemma {:induction false} PathsBelow(data: Json, path: seq<string>)
    ensures forall g :: g in Extract(data, path) ==> path <= g.path
    decreases data, 1
  {
    match data
    case Obj(entries) => EntryPathsBelow(entries, path);
    case Arr(items) => ItemPathsBelow(items, path, 0);
    case Scalar(_) =>
    case Null =>
  }

  lemma {:induction false} EntryPathsBelow(entries: seq<Entry>, path: seq<string>)
    ensures forall g :: g in ExtractEntries(entries, path) ==> path <= g.path
    decreases entries, 0
  {
    if entries != [] {
      PathsBelow(entries[0].value, path + [entries[0].key]);
      EntryPathsBelow(entries[1..], path);
      assert path <= path + [entries[0].key];
    }
  }

  lemma {:induction false} ItemPathsBelow(items: seq<Json>, path: seq<string>, from: nat)
    ensures forall g :: g in ExtractItems(items, path, from) ==> path <= g.path
    decreases items, 0
  {
    if items != [] {
      PathsBelow(items[0], path + [Digits(from)]);
      ItemPathsBelow(items[1..], path, from + 1);
      assert path <= path + [Digits(from)];
    }
  }

  predicate HasGroups(entry: Entry, path: seq<string>) {
    Extract(entry.value, path + [entry.key]) != []
  }

  /** The groups below some entries are those of one of them exactly when no other has any. */
  lemma {:induction false} OnlyEntry(entries: seq<Entry>, path: seq<string>, i: nat)
    requires i < |entries|
    ensures |ExtractEntries(entries, path)| >= |Extract(entries[i].value, path + [entries[i].key])|
    ensures ExtractEntries(entries, path) == Extract(entries[i].value, path + [entries[i].key])
            <==> forall j :: 0 <= j < |entries| && j != i ==> !HasGroups(entries[j], path)
  {
    hide Extract;
    var tail := entries[1..];
    assert forall j :: 0 <= j < |tail| ==> tail[j] == entries[j + 1];
    if i == 0 {
      NoEntry(tail, path);
      assert (forall j :: 0 <= j < |tail| ==> !HasGroups(tail[j], path))
        <==> forall j :: 0 < j < |entries| ==> !HasGroups(entries[j], path) by {
        assert forall j :: 0 < j < |entries| ==> entries[j] == tail[j - 1];
      }
    } else {
      OnlyEntry(tail, path, i - 1);
      var own := Extract(entries[i].value, path + [entries[i].key]);
      if ExtractEntries(entries, path) == own {
        assert !HasGroups(entries[0], path);
        forall j | 0 <= j < |entries| && j != i
          ensures !HasGroups(entries[j], path)
        {
          if j > 0 {
            assert tail[j - 1] == entries[j];
          }
        }
      }
    }
  }

  lemma {:induction false} NoEntry(entries: seq<Entry>, path: seq<string>)
    ensures ExtractEntries(entries, path) == [] <==> forall j :: 0 <= j < |entries| ==> !HasGroups(entries[j], path)
  {
    hide Extract;
    if entries != [] {
      var tail := entries[1..];
      NoEntry(tail, path);
      assert forall j :: 0 <= j < |tail| ==> tail[j] == entries[j + 1];
      if ExtractEntries(entries, path) == [] {
        forall j | 0 <= j < |entries|
          ensures !HasGroups(entries[j], path)
        {
          if j > 0 {
            assert tail[j - 1] == entries[j];
          }
        }
      }
    }
  }

  lemma {:induction false} DescendStep(data: Json, keys: seq<string>, entries: seq<Entry>, i: nat)
    requires Descend(data, keys) == Some(Obj(entries)) && UniqueKeys(entries) && i < |entries|
    ensures Descend(data, keys + [entries[i].key]) == Some(entries[i].value)
    decreases keys
  {
    if keys == [] {
      LookupAt(entries, i);
      assert [entries[i].key][1..] == [];
    } else {
      var child := Field(data, keys[0]).value;
      DescendStep(child, keys[1..], entries, i);
      assert (keys + [entries[i].key])[1..] == keys[1..] + [entries[i].key];
    }
  }

  /** The group lists of the children of a node, each found by its own dotted path, in order. */
  function ChildLevels(data: Json, keys: seq<string>, entries: seq<Entry>): seq<Group> {
    if entries == [] then []
    else Filtered(data, Join(keys + [entries[0].key], '.')) + ChildLevels(data, keys, entries[1..])
  }

  lemma {:induction false} ChildLevelsAre(data: Json, keys: seq<string>, entries: seq<Entry>, i: nat)
    requires Descend(data, keys) == Some(Obj(entries)) && UniqueKeys(entries) && i <= |entries|
    requires forall k :: 0 <= k < |keys| ==> Plain(keys[k])
    requires forall k :: 0 <= k < |entries| ==> Plain(entries[k].key) && Join(keys + [entries[k].key], '.') != ""
    ensures ChildLevels(data, keys, entries[i..]) == ExtractEntries(entries[i..], keys)
    decreases |entries| - i
  {
    if i < |entries| {
      ChildLevelsAre(data, keys, entries, i + 1);
      assert entries[i..][1..] == entries[i + 1..];
      DescendStep(data, keys, entries, i);
      LevelIsSubtree(data, keys + [entries[i].key], entries[i].value);
    }
  }

  /** Level composition: the groups of a dictionary, found by its dotted path (or without a filter
      for the whole document), are its own group, if it has one, followed by the levels of its
      children, each as found by its own path. In particular the global list is the concatenation
      of the top-level lists when the root is not a group itself. */
  lemma {:induction false} LevelsCompose(data: Json, keys: seq<string>, entries: seq<Entry>)
    requires Descend(data, keys) == Some(Obj(entries)) && UniqueKeys(entries)
    requires keys != [] ==> Join(keys, '.') != ""
    requires forall k :: 0 <= k < |keys| ==> Plain(keys[k])
    requires forall k :: 0 <= k < |entries| ==> Plain(entries[k].key) && Join(keys + [entries[k].key], '.') != ""
    ensures Filtered(data, Join(keys, '.')) == Own(Obj(entries), keys) + ChildLevels(data, keys, entries)
    ensures Field(Obj(entries), "rulegroup").None? ==>
              Filtered(data, Join(keys, '.')) == ChildLevels(data, keys, entries)
  {
    ChildLevelsAre(data, keys, entries, 0);
    assert entries[0..] == entries;
    if keys != [] {
      LevelIsSubtree(data, keys, Obj(entries));
    }
  }

  /** The names of the levels that an entry of the root contributes: its key, and below a dictionary
      one name for each key there. */
  function SubNames(key: string, entries: seq<Entry>): seq<string> {
    if entries == [] then [] else SubNames(key, entries[..|entries| - 1]) + [key + "." + entries[|entries| - 1].key]
  }

  function NamesOf(entry: Entry): seq<string> {
    [entry.key] + if entry.value.Obj? then SubNames(entry.key, entry.value.entries) else []
  }

  function LevelNames(entries: seq<Entry>): seq<string> {
    if entries == [] then [] else LevelNames(entries[..|entries| - 1]) + NamesOf(entries[|entries| - 1])
  }

  /** The table of levels holds, for each of its names, the groups that the name finds; only
      "global", unless the document has a key of that name, stands for all groups. */
  ghost predicate Table(levels: map<string, seq<Group>>, data: Json, names: seq<string>) {
    && (forall n :: n in levels <==> n == "global" || n in names)
    && (forall n :: n in levels ==> levels[n] == if n in names then Filtered(data, n) else Extract(data, []))
  }

  lemma TableGrows(levels: map<string, seq<Group>>, data: Json, names: seq<string>, name: string)
    requires Table(levels, data, names)
    ensures Table(levels[name := Filtered(data, name)], data, names + [name])
  {
  }

  /** The inner loop of `analyze_levels`: the second-level keys below one dictionary. */
  method AddSubLevels(levels: map<string, seq<Group>>, data: Json, entry: Entry, ghost names: seq<string>)
    returns (grown: map<string, seq<Group>>)
    requires entry.value.Obj? && Table(levels, data, names)
    ensures Table(grown, data, names + SubNames(entry.key, entry.value.entries))
  {
    hide Filtered, Extract, Table;
    var key, subs := entry.key, entry.value.entries;
    grown := levels;
    assert names + SubNames(key, subs[..0]) == names;
    for j := 0 to |subs|
      invariant Table(grown, data, names + SubNames(key, subs[..j]))
    {
      var sub := key + "." + subs[j].key;
      var below := ExtractGroups(data, sub);
      TableGrows(grown, data, names + SubNames(key, subs[..j]), sub);
      grown := grown[sub := below];
      assert subs[..j + 1][..j] == subs[..j];
      Regroup(names, SubNames(key, subs[..j]), [sub]);
    }
    assert subs[..|subs|] == subs;
  }

  lemma NextNames(entries: seq<Entry>, i: nat)
    requires i < |entries|
    ensures LevelNames(entries[..i + 1])
      == LevelNames(entries[..i]) + [entries[i].key]
         + (if entries[i].value.Obj? then SubNames(entries[i].key, entries[i].value.entries) else [])
  {
    assert entries[..i + 1][..i] == entries[..i];
  }

  /** `analyze_levels`, up to the metrics; a root without keys raises an AttributeError. */
  method AnalyzeLevels(data: Json, filter: string) returns (result: Option<map<string, seq<Group>>>)
    ensures filter != "" ==> result == Some(map[filter := Filtered(data, filter)])
    ensures filter == "" && !data.Obj? ==> result == None
    ensures filter == "" && data.Obj? ==> result.Some? && Table(result.value, data, LevelNames(data.entries))
  {
    if filter != "" {
      var found := ExtractGroups(data, filter);
      return Some(map[filter := found]);
    }
    var levels := map[];
    var all := ExtractGroups(data, "");
    levels := levels["global" := all];
    if data.Obj? {
      levels := AddLevels(data, levels);
      result := Some(levels);
    } else {
      result := None;
    }
  }

  /** The outer loop of `analyze_levels`: the top-level keys. */
  method AddLevels(data: Json, levels: map<string, seq<Group>>) returns (grown: map<string, seq<Group>>)
    requires data.Obj? && Table(levels, data, [])
    ensures Table(grown, data, LevelNames(data.entries))
  {
    var entries := data.entries;
    assert LevelNames(entries[..0]) == [];
    hide Filtered, Extract, Table, LevelNames, SubNames;
    grown := levels;
    for i := 0 to |entries|
      invariant Table(grown, data, LevelNames(entries[..i]))
    {
      var key := entries[i].key;
      var found := ExtractGroups(data, key);
      TableGrows(grown, data, LevelNames(entries[..i]), key);
      grown := grown[key := found];
      ghost var names := LevelNames(entries[..i]) + [key];
      NextNames(entries, i);
      if entries[i].value.Obj? {
        grown := AddSubLevels(grown, data, entries[i], names);
      } else {
        assert names + [] == names;
      }
    }
    assert entries[..|entries|] == entries;
  }

  // ----- exactly which names find their own node -----

  /** The document has a group that is not below the top-level key. */
  predicate Elsewhere(data: Json, key: string) {
    Own(data, []) != []
    || (data.Obj? && exists j ::
          0 <= j < |data.entries| && data.entries[j].key != key && HasGroups(data.entries[j], []))
  }

  lemma JoinEmpty(keys: seq<string>)
    requires keys != [] && Join(keys, '.') == ""
    ensures keys == [""]
  {
  }

  lemma {:induction false} JoinCount(keys: seq<string>)
    requires keys != []
    ensures |Split(Join(keys, '.'), '.')| >= |keys|
  {
    if |keys| > 1 {
      var rest := Join(keys[1..], '.');
      JoinCount(keys[1..]);
      CountAppend(keys[0], ['.'] + rest, '.');
      assert keys[0] + ['.'] + rest == keys[0] + (['.'] + rest);
      assert (['.'] + rest)[1..] == rest;
    }
  }

  /** A name with a dot in one of its keys leads elsewhere: the groups it finds lie below other keys. */
  lemma DottedMisses(data: Json, keys: seq<string>, node: Json)
    requires keys != [] && Join(keys, '.') != "" && Extract(node, keys) != []
    requires Filtered(data, Join(keys, '.')) == Extract(node, keys)
    ensures forall k :: 0 <= k < |keys| ==> Plain(keys[k])
  {
    var parts := Split(Join(keys, '.'), '.');
    var found := Descend(data, parts);
    var g := Extract(node, keys)[0];
    assert g in Extract(node, keys);
    PathsBelow(node, keys);
    assert found.Some? && g in Extract(found.value, parts);
    PathsBelow(found.value, parts);
    JoinCount(keys);
    forall k | 0 <= k < |keys|
      ensures Plain(keys[k])
    {
      assert keys[k] == g.path[k] == parts[k];
    }
  }

  /** The empty name stands for the whole document. */
  lemma EmptyNameIsAll(data: Json, node: Json)
    requires data.Obj? && UniqueKeys(data.entries) && Descend(data, [""]) == Some(node)
    ensures Filtered(data, "") == Extract(node, [""]) <==> !Elsewhere(data, "")
  {
    assert [""][1..] == [];
    var entries := data.entries;
    var i := EntryOf(entries, "");
    OnlyEntry(entries, [], i);
    assert [] + [""] == [""];
    assert forall j :: 0 <= j < |entries| ==> (entries[j].key != "" <==> j != i);
    hide Extract;
    ExtractUnfolds(data, []);
  }

  lemma {:induction false} EntryOf(entries: seq<Entry>, key: string) returns (i: nat)
    requires Lookup(entries, key).Some?
    ensures i < |entries| && entries[i].key == key && Lookup(entries, key) == Some(entries[i].value)
  {
    if entries[0].key == key {
      i := 0;
    } else {
      var k := EntryOf(entries[1..], key);
      i := k + 1;
    }
  }

  /** The node that a name leads to, read key by key between its dots, is absent or has no groups. */
  predicate LeadsNowhere(data: Json, name: string) {
    var parts := Split(name, '.');
    var node := Descend(data, parts);
    node.None? || Extract(node.value, parts) == []
  }

  /** The name that `analyze_levels` builds for a node finds exactly the groups of that node if and
      only if no key has a dot, or the node has no groups and the name leads to none either; only the
      empty name is different, it finds them if and only if the document has no other groups. */
  lemma {:induction false} LevelExactly(data: Json, keys: seq<string>, node: Json)
    requires data.Obj? && UniqueKeys(data.entries)
    requires keys != [] && Descend(data, keys) == Some(node)
    ensures Filtered(data, Join(keys, '.')) == Extract(node, keys)
            <==> if Join(keys, '.') == "" then !Elsewhere(data, "")
                 else (forall k :: 0 <= k < |keys| ==> Plain(keys[k]))
                      || (Extract(node, keys) == [] && LeadsNowhere(data, Join(keys, '.')))
  {
    var name := Join(keys, '.');
    assert name != "" ==> (Filtered(data, name) == [] <==> LeadsNowhere(data, name));
    hide Extract, Filtered, Elsewhere, LeadsNowhere;
    if name == "" {
      JoinEmpty(keys);
      EmptyNameIsAll(data, node);
    } else {
      if forall k :: 0 <= k < |keys| ==> Plain(keys[k]) {
        LevelIsSubtree(data, keys, node);
      }
      if Filtered(data, name) == Extract(node, keys) != [] {
        DottedMisses(data, keys, node);
      }
    }
  }

  /** A node that is a group without rules. */
  const LEAF := Obj([Entry("rulegroup", Obj([]))])

  /** An empty key that finds two groups where its node has one. */
  lemma EmptyKeyFindsAll()
    ensures |Extract(LEAF, [""])| == 1 && |Filtered(Obj([Entry("", LEAF), Entry("tcp", LEAF)]), "")| == 2
  {
    var entries := [Entry("", LEAF), Entry("tcp", LEAF)];
    var root := Obj(entries);
    var none: seq<string> := [];
    assert Lookup(entries[1..][1..], "rulegroup") == None;
    assert Field(root, "rulegroup") == Lookup(entries, "rulegroup") == Lookup(entries[1..], "rulegroup") == None;
    assert Own(root, none) == [];
    LeafExtract([""]);
    LeafExtract(["tcp"]);
    hide Extract, Own;
    ExtractUnfolds(root, none);
    assert none + [""] == [""] && none + ["tcp"] == ["tcp"];
    assert entries[1..] == [Entry("tcp", LEAF)] && entries[1..][1..] == [];
    assert ExtractEntries(entries[1..], none) == Extract(LEAF, ["tcp"]) + ExtractEntries([], none);
    assert ExtractEntries(entries, none) == Extract(LEAF, [""]) + ExtractEntries(entries[1..], none);
  }

  /** A dotted key that finds no group where its node has one. */
  lemma DottedKeyFindsNone()
    ensures |Extract(LEAF, ["a.b"])| == 1 && Filtered(Obj([Entry("a.b", LEAF)]), "a.b") == []
  {
    LeafExtract(["a.b"]);
    hide Extract;
    SplitJoin(["a", "b"], '.');
    assert Join(["a", "b"], '.') == "a.b";
    assert Lookup([Entry("a.b", LEAF)], "a") == None;
  }

  /** A dotted key that finds a foreign group where its node has none. */
  lemma DottedKeyFindsForeign()
    ensures var data := Obj([Entry("a.b", Null), Entry("a", Obj([Entry("b", LEAF)]))]);
            && Descend(data, ["a.b"]) == Some(Null) && Extract(Null, ["a.b"]) == []
            && |Filtered(data, "a.b")| == 1
  {
    var bs := [Entry("b", LEAF)];
    var inner := Obj(bs);
    var entries := [Entry("a.b", Null), Entry("a", inner)];
    var none: seq<string> := [];
    LeafExtract(["a", "b"]);
    hide Extract;
    ExtractUnfolds(Null, ["a.b"]);
    assert ["a.b"][1..] == none && ["a", "b"][1..] == ["b"] && ["b"][1..] == none;
    assert entries[1..] == [Entry("a", inner)];
    assert entries[0].key != "a" && entries[1..][0].key == "a" && bs[0].key == "b";
    assert Lookup(entries, "a") == Lookup(entries[1..], "a") == Some(inner);
    assert Lookup(bs, "b") == Some(LEAF);
    assert Descend(inner, ["b"]) == Some(LEAF);
    assert Descend(Obj(entries), ["a", "b"]) == Some(LEAF);
    SplitJoin(["a", "b"], '.');
    assert Join(["a", "b"], '.') == "a.b";
  }

  lemma LeafExtract(path: seq<string>)
    ensures |Extract(LEAF, path)| == 1
  {
    assert |Own(LEAF, path)| == 1;
    assert LEAF.entries[1..] == [];
    assert Extract(Obj([]), path + ["rulegroup"]) == [];
  }
}
