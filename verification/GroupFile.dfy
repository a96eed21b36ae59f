/** The saved form of the groups, at the level of JSON objects, and what loading makes of it. */
module GroupFile {
  import opened Text
  import opened KeyOrder
  import opened InstanceReload
  import opened InstanceGroups

  /** The value of one group in the file; anything without an array of instances is malformed. */
  datatype JsonGroup = Malformed | Group(hidden: bool, instances: seq<QString>)

  datatype File = File(groups: map<QString, JsonGroup>, ungroupedHidden: bool)

  /** An instance listed under a group. */
  datatype Pair = Pair(id: QString, group: QString)

  // ---------- Loading ----------

  predicate Readable(file: File, name: QString) {
    name in file.groups && name != UNGROUPED && file.groups[name].Group?
  }

  function PairsOf(ids: seq<QString>, name: QString): (r: seq<Pair>)
    ensures |r| == |ids| && forall i :: 0 <= i < |r| ==> r[i] == Pair(ids[i], name)
  {
    seq(|ids|, i requires 0 <= i < |ids| => Pair(ids[i], name))
  }

  /** Everything listed under the given names, in order. */
  function Pairs(file: File, names: seq<QString>): seq<Pair> {
    if names == [] then []
    else
      var last := names[|names| - 1];
      var listed := if Readable(file, last) then PairsOf(file.groups[last].instances, last) else [];
      Pairs(file, names[..|names| - 1]) + listed
  }

  function Enrol(pairs: seq<Pair>): Groups {
    if pairs == [] then NO_GROUPS
    else Enter(Enrol(pairs[..|pairs| - 1]), pairs[|pairs| - 1].id, pairs[|pairs| - 1].group)
  }

  function HiddenAmong(file: File, names: seq<QString>): set<QString> {
    if names == [] then {}
    else
      var last := names[|names| - 1];
      HiddenAmong(file, names[..|names| - 1]) + if Readable(file, last) && file.groups[last].hidden then {last} else {}
  }

  /** The state after reading the groups of the given names. */
  function Read(file: File, names: seq<QString>): Groups {
    Enrol(Pairs(file, names)).(collapsed := HiddenAmong(file, names))
  }

  ghost function Loaded(file: File): Groups {
    var g := Read(file, SortedKeys(file.groups.Keys));
    if file.ungroupedHidden then g.(collapsed := g.collapsed + {UNGROUPED}) else g
  }

  ghost predicate DistinctIds(pairs: seq<Pair>) {
    forall i, j :: 0 <= i < j < |pairs| ==> pairs[i].id != pairs[j].id
  }

  ghost predicate InGroups(pairs: seq<Pair>) {
    forall i :: 0 <= i < |pairs| ==> pairs[i].group != UNGROUPED
  }

  ghost predicate NeverUnder(g: Groups) {
    forall name :: name != UNGROUPED ==> CacheOf(g, name) >= |Members(g.index, {}, name)|
  }

  function Excess(g: Groups, name: QString): int {
    CacheOf(g, name) - |Members(g.index, {}, name)|
  }

  lemma ExcessStays(g: Groups, id: QString, group: QString, name: QString)
    requires name != UNGROUPED
    ensures Excess(Enter(g, id, group), name) >= Excess(g, name)
  {
    assert {} - {id} == {};
    MembersAfterMapping(g.index, {}, id, group, name);
    AddOne(Members(g.index, {}, name), id);
  }

  /** Entering never makes a count too small, nor mends one that is too large. */
  lemma EnterKeepsExcess(g: Groups, id: QString, group: QString)
    requires NeverUnder(g)
    ensures NeverUnder(Enter(g, id, group))
    ensures Overcounts(g) ==> Overcounts(Enter(g, id, group))
  {
    var h := Enter(g, id, group);
    forall name | name != UNGROUPED ensures CacheOf(h, name) >= |Members(h.index, {}, name)| {
      ExcessStays(g, id, group, name);
      assert CacheOf(g, name) >= |Members(g.index, {}, name)|;
    }
    if Overcounts(g) {
      var name :| name != UNGROUPED && CacheOf(g, name) > |Members(g.index, {}, name)|;
      ExcessStays(g, id, group, name);
      assert CacheOf(h, name) > |Members(h.index, {}, name)|;
    }
  }

  ghost predicate Lists(pairs: seq<Pair>, id: QString) {
    exists i :: 0 <= i < |pairs| && pairs[i].id == id
  }

  ghost predicate LastListing(pairs: seq<Pair>, i: nat) {
    i < |pairs| && forall j :: i < j < |pairs| ==> pairs[j].id != pairs[i].id
  }

  lemma {:induction false} EnrolKeys(pairs: seq<Pair>, id: QString)
    ensures id in Enrol(pairs).index <==> Lists(pairs, id)
    ensures InGroups(pairs) && id in Enrol(pairs).index ==> Enrol(pairs).index[id] != UNGROUPED
  {
    if pairs == [] {
    } else {
      EnrolKeys(pairs[..|pairs| - 1], id);
    }
  }

  /** The last listing of an id wins. */
  lemma {:induction false} EnrolLast(pairs: seq<Pair>, i: nat)
    requires LastListing(pairs, i)
    ensures pairs[i].id in Enrol(pairs).index && Enrol(pairs).index[pairs[i].id] == pairs[i].group
  {
    if i < |pairs| - 1 {
      EnrolLast(pairs[..|pairs| - 1], i);
    }
  }

  lemma {:induction false} EnrolExcess(pairs: seq<Pair>)
    requires InGroups(pairs)
    ensures NeverUnder(Enrol(pairs))
    ensures DistinctIds(pairs) ==> Exact(Enrol(pairs))
    ensures !DistinctIds(pairs) ==> Overcounts(Enrol(pairs))
  {
    if pairs == [] {
      assert forall name :: Members(NO_GROUPS.index, {}, name) == {};
    } else {
      var n := |pairs| - 1;
      EnrolExcess(pairs[..n]);
      EnrolOneMore(pairs[..n], pairs[n]);
      assert pairs == pairs[..n] + [pairs[n]];
    }
  }

  lemma EnrolOneMore(init: seq<Pair>, p: Pair)
    requires InGroups(init) && p.group != UNGROUPED && NeverUnder(Enrol(init))
    requires if DistinctIds(init) then Exact(Enrol(init)) else Overcounts(Enrol(init))
    ensures var g := Enrol(init + [p]);
            NeverUnder(g) && if DistinctIds(init + [p]) then Exact(g) else Overcounts(g)
  {
    var g := Enrol(init);
    assert (init + [p])[..|init|] == init;
    EnrolKeys(init, p.id);
    EnterKeepsExcess(g, p.id, p.group);
    DistinctSnoc(init, p);
    if p.id in g.index {
      EnterOvercounts(g, p.id, p.group);
    } else if DistinctIds(init) {
      EnterExact(g, p.id, p.group);
    }
  }

  lemma DistinctSnoc(init: seq<Pair>, p: Pair)
    ensures DistinctIds(init + [p]) <==> DistinctIds(init) && forall i :: 0 <= i < |init| ==> init[i].id != p.id
  {
    var all := init + [p];
    if DistinctIds(all) {
      forall i | 0 <= i < |init| ensures init[i].id != p.id {
        assert all[i].id != all[|init|].id;
      }
      forall i, j | 0 <= i < j < |init| ensures init[i].id != init[j].id {
        assert all[i].id != all[j].id;
      }
    }
  }

  lemma {:induction false} PairsInGroups(file: File, names: seq<QString>)
    ensures InGroups(Pairs(file, names))
  {
    if names == [] {
    } else {
      PairsInGroups(file, names[..|names| - 1]);
    }
  }

  /** Is the instance listed in a group that can be read? */
  predicate ListedUnder(file: File, name: QString, id: QString) {
    name in file.groups && name != [] && file.groups[name].Group? && id in file.groups[name].instances
  }

  lemma {:induction false} PairsMean(file: File, names: seq<QString>, p: Pair)
    ensures p in Pairs(file, names) <==> p.group in names && ListedUnder(file, p.group, p.id)
  {
    if names == [] {
    } else {
      var n := |names| - 1;
      PairsMean(file, names[..n], p);
      assert names == names[..n] + [names[n]];
      if ListedUnder(file, names[n], p.id) && p.group == names[n] {
        var ids := file.groups[names[n]].instances;
        var i :| 0 <= i < |ids| && ids[i] == p.id;
        assert PairsOf(ids, names[n])[i] == p;
      }
    }
  }

  ghost predicate SortedNames(names: seq<QString>) {
    forall i, j :: 0 <= i < j < |names| ==> Before(names[i], names[j])
  }

  ghost predicate NoneAfter(pairs: seq<Pair>, name: QString) {
    forall i :: 0 <= i < |pairs| ==> pairs[i].group == name || Before(pairs[i].group, name)
  }

  /** Groups are read in the order of their names. */
  lemma {:induction false} PairsSorted(file: File, names: seq<QString>)
    requires SortedNames(names)
    ensures forall i, j :: 0 <= i < j < |Pairs(file, names)| ==>
            Pairs(file, names)[i].group == Pairs(file, names)[j].group
            || Before(Pairs(file, names)[i].group, Pairs(file, names)[j].group)
    ensures names != [] ==> NoneAfter(Pairs(file, names), names[|names| - 1])
  {
    if names == [] {
    } else {
      var n := |names| - 1;
      PairsSorted(file, names[..n]);
      var before := Pairs(file, names[..n]);
      forall i | 0 <= i < |before| ensures Before(before[i].group, names[n]) {
        PairsMean(file, names[..n], before[i]);
        assert before[i] in before;
        var k :| 0 <= k < n && names[k] == before[i].group;
      }
    }
  }

  /**
   What any file means: an instance is in the group that comes last by name of those it is listed in, whatever the rest
   of the file; a group is collapsed when it can be read and says so.
   */
  lemma LoadedMeans(file: File, id: QString, name: QString)
    ensures id in Loaded(file).index <==> exists n :: ListedUnder(file, n, id)
    ensures ListedUnder(file, name, id) && (forall n :: ListedUnder(file, n, id) ==> n == name || Lower(n, name)) ==>
            Loaded(file).index[id] == name
    ensures name in Loaded(file).collapsed <==>
            if name == [] then file.ungroupedHidden
            else name in file.groups && file.groups[name].Group? && file.groups[name].hidden
  {
    var names := SortedKeys(file.groups.Keys);
    var pairs := Pairs(file, names);
    EnrolKeys(pairs, id);
    HiddenMeans(file, names);
    forall p: Pair ensures p in pairs <==> ListedUnder(file, p.group, p.id) {
      PairsMean(file, names, p);
    }
    if n :| ListedUnder(file, n, id) {
      assert Pair(id, n) in pairs;
    }
    if Lists(pairs, id) {
      var i :| 0 <= i < |pairs| && pairs[i].id == id;
      assert pairs[i] in pairs;
    }
    if ListedUnder(file, name, id) && forall n :: ListedUnder(file, n, id) ==> n == name || Lower(n, name) {
      LastByName(file, names, id, name);
    }
  }

  lemma LastByName(file: File, names: seq<QString>, id: QString, name: QString)
    requires SortedNames(names) && (forall n :: n in names <==> n in file.groups) && ListedUnder(file, name, id)
    requires forall n :: ListedUnder(file, n, id) ==> n == name || Lower(n, name)
    ensures id in Enrol(Pairs(file, names)).index && Enrol(Pairs(file, names)).index[id] == name
  {
    var pairs := Pairs(file, names);
    PairsSorted(file, names);
    PairsMean(file, names, Pair(id, name));
    var j :| 0 <= j < |pairs| && pairs[j] == Pair(id, name);
    var i := LastOf(pairs, id, j);
    EnrolLast(pairs, i);
    PairsMean(file, names, pairs[i]);
    assert pairs[i] in pairs;
    NotBothBefore(pairs[i].group, name);
  }

  lemma NotBothBefore(a: QString, b: QString)
    ensures Lower(a, b) <==> Before(a, b)
    ensures !(Before(a, b) && Before(b, a)) && !Before(a, a)
  {
    CompareUnitsMeans(a, b);
    CompareUnitsReverse(a, b);
    CompareUnitsReverse(a, a);
  }

  lemma {:induction false} LastOf(pairs: seq<Pair>, id: QString, j: nat) returns (i: nat)
    requires j < |pairs| && pairs[j].id == id
    ensures j <= i && LastListing(pairs, i) && pairs[i].id == id
    decreases |pairs| - j
  {
    if LastListing(pairs, j) {
      i := j;
    } else {
      var k :| j < k < |pairs| && pairs[k].id == id;
      i := LastOf(pairs, id, k);
    }
  }

  /** Loading any file gives exact counts if and only if no instance is listed twice. */
  lemma LoadExact(file: File)
    ensures Exact(Loaded(file)) <==> DistinctIds(Pairs(file, SortedKeys(file.groups.Keys)))
  {
    var pairs := Pairs(file, SortedKeys(file.groups.Keys));
    PairsInGroups(file, SortedKeys(file.groups.Keys));
    EnrolExcess(pairs);
    SameCounts(Enrol(pairs), Loaded(file).collapsed);
    if Overcounts(Enrol(pairs)) {
      OvercountIsInexact(Enrol(pairs));
    }
  }

  /** A file that lists an instance twice in a group. */
  const LISTED_TWICE := File(map[GROUP := Group(false, [ID, ID])], false)

  lemma TwiceListedSpoils()
    ensures !Exact(Loaded(LISTED_TWICE))
  {
    var names := SortedKeys(LISTED_TWICE.groups.Keys);
    assert LISTED_TWICE.groups.Keys == {GROUP};
    OneKey(GROUP);
    assert names[..0] == [] && Pairs(LISTED_TWICE, []) == [];
    var pairs := Pairs(LISTED_TWICE, names);
    assert pairs == PairsOf([ID, ID], GROUP);
    assert pairs[0].id == pairs[1].id;
    LoadExact(LISTED_TWICE);
  }

  lemma SameCounts(g: Groups, collapsed: set<QString>)
    ensures Exact(g.(collapsed := collapsed)) <==> Exact(g)
  {
    var h := g.(collapsed := collapsed);
    assert forall name :: CountIs(h, {}, name) <==> CountIs(g, {}, name);
  }

  // ---------- Saving ----------

  /** The groups that have members. */
  ghost predicate Populated(g: Groups, name: QString) {
    name != UNGROUPED && exists id :: id in g.index && g.index[id] == name
  }

  ghost predicate Enumerates(s: seq<QString>, ids: set<QString>) {
    Distinct(s) && forall id :: id in s <==> id in ids
  }

  /** What saving writes; the order of the instances of a group is that of a hash set. */
  ghost predicate SavedAs(g: Groups, file: File) {
    && (forall name :: name in file.groups <==> Populated(g, name))
    && (forall name :: name in file.groups ==>
          && file.groups[name].Group? && (file.groups[name].hidden <==> name in g.collapsed)
          && Enumerates(file.groups[name].instances, Members(g.index, {}, name)))
    && (file.ungroupedHidden <==> UNGROUPED in g.collapsed)
  }

  /** The pairs of a saved file are the memberships, each once. */
  lemma {:induction false} PairsOfSaved(g: Groups, file: File, names: seq<QString>)
    requires SavedAs(g, file)
    requires Distinct(names) && forall i :: 0 <= i < |names| ==> names[i] in file.groups
    ensures DistinctIds(Pairs(file, names)) && MembershipsIn(g, Pairs(file, names), names)
  {
    if names == [] {
    } else {
      var n := |names| - 1;
      LastIsNew(names);
      PairsOfSaved(g, file, names[..n]);
      PairsOfLast(g, file, names[..n], names[n]);
    }
  }

  lemma LastIsNew(names: seq<QString>)
    requires Distinct(names) && names != []
    ensures var n := |names| - 1; Distinct(names[..n]) && names[n] !in names[..n] && names == names[..n] + [names[n]]
  {}

  lemma PairsOfLast(g: Groups, file: File, init: seq<QString>, last: QString)
    requires SavedAs(g, file) && last in file.groups && last !in init
    requires DistinctIds(Pairs(file, init)) && MembershipsIn(g, Pairs(file, init), init)
    ensures DistinctIds(Pairs(file, init + [last])) && MembershipsIn(g, Pairs(file, init + [last]), init + [last])
  {
    var ids := file.groups[last].instances;
    PairsOfGroup(g, ids, last);
    PairsSnoc(file, init, last);
    assert last != UNGROUPED;
    DistinctAppend(g, Pairs(file, init), PairsOf(ids, last), init, last);
  }

  lemma PairsSnoc(file: File, init: seq<QString>, last: QString)
    ensures Pairs(file, init + [last]) ==
            Pairs(file, init) + if Readable(file, last) then PairsOf(file.groups[last].instances, last) else []
  {
    assert (init + [last])[..|init|] == init;
  }

  /** Are these the memberships in the given groups? */
  ghost predicate MembershipsIn(g: Groups, pairs: seq<Pair>, names: seq<QString>) {
    forall p :: p in pairs <==> p.id in g.index && g.index[p.id] == p.group && p.group in names
  }

  lemma DistinctAppend(g: Groups, a: seq<Pair>, b: seq<Pair>, names: seq<QString>, last: QString)
    requires DistinctIds(a) && DistinctIds(b) && last !in names
    requires MembershipsIn(g, a, names)
    requires forall p :: p in b <==> p.id in g.index && g.index[p.id] == p.group && p.group == last
    ensures DistinctIds(a + b) && MembershipsIn(g, a + b, names + [last])
  {}

  lemma PairsOfGroup(g: Groups, ids: seq<QString>, name: QString)
    requires Enumerates(ids, Members(g.index, {}, name))
    ensures DistinctIds(PairsOf(ids, name))
    ensures forall p :: p in PairsOf(ids, name) <==> p.id in g.index && g.index[p.id] == p.group && p.group == name
  {}

  /**
   Loading what was saved restores every membership of a real group, with exact counts whatever the cache held
   before, and the collapsed flags of populated groups and of the ungrouped one.
   */
  lemma LoadOfSave(g: Groups, file: File)
    requires SavedAs(g, file)
    ensures Loaded(file).index == map id | id in g.index && g.index[id] != UNGROUPED :: g.index[id]
    ensures Exact(Loaded(file))
    ensures forall name :: name in Loaded(file).collapsed <==>
            name in g.collapsed && (Populated(g, name) || name == UNGROUPED)
  {
    var names := SortedKeys(file.groups.Keys);
    var pairs := Pairs(file, names);
    forall i | 0 <= i < |names| ensures names[i] in file.groups {
      assert names[i] in names;
    }
    PairsOfSaved(g, file, names);
    LoadExact(file);
    RestoredIndex(g, file, pairs);
    RestoredCollapsed(g, file);
  }

  lemma {:induction false} HiddenMeans(file: File, names: seq<QString>)
    ensures forall name :: name in HiddenAmong(file, names) <==>
            name in names && Readable(file, name) && file.groups[name].hidden
  {
    if names == [] {
    } else {
      var n := |names| - 1;
      HiddenMeans(file, names[..n]);
      assert names == names[..n] + [names[n]];
    }
  }

  lemma RestoredCollapsed(g: Groups, file: File)
    requires SavedAs(g, file)
    ensures forall name :: name in Loaded(file).collapsed <==>
            name in g.collapsed && (Populated(g, name) || name == UNGROUPED)
  {
    HiddenMeans(file, SortedKeys(file.groups.Keys));
  }

  lemma RestoredIndex(g: Groups, file: File, pairs: seq<Pair>)
    requires SavedAs(g, file) && DistinctIds(pairs)
    requires forall p :: p in pairs <==> p.id in g.index && g.index[p.id] == p.group && p.group in file.groups
    ensures Enrol(pairs).index == map id | id in g.index && g.index[id] != UNGROUPED :: g.index[id]
  {
    var index, expected := Enrol(pairs).index, map id | id in g.index && g.index[id] != UNGROUPED :: g.index[id];
    forall id | id in index ensures id in expected && index[id] == expected[id] {
      EnrolKeys(pairs, id);
      var i: nat :| i < |pairs| && pairs[i].id == id;
      assert pairs[i] in pairs;
      EnrolLast(pairs, i);
      assert Populated(g, pairs[i].group);
    }
    forall id | id in expected ensures id in index {
      assert Populated(g, g.index[id]);
      assert Pair(id, g.index[id]) in pairs;
      EnrolKeys(pairs, id);
    }
  }

  // ---------- The methods' loops ----------

  /** Enumerates a set in some order. */
  method ToArray(ids: set<QString>) returns (r: seq<QString>)
    ensures Enumerates(r, ids)
  {
    r := [];
    var rest := ids;
    while rest != {}
      invariant rest <= ids && Distinct(r)
      invariant forall id :: id in r <==> id in ids && id !in rest
      decreases rest
    {
      var id :| id in rest;
      assert id !in r;
      r := r + [id];
      rest := rest - {id};
    }
  }

  /** The group map turned around, ungrouped instances left out. */
  method ReverseMap(index: map<QString, QString>) returns (r: map<QString, set<QString>>)
    ensures forall name :: name in r <==> name != UNGROUPED && exists id :: id in index && index[id] == name
    ensures forall name :: name in r ==> r[name] == Members(index, {}, name)
  {
    r := map[];
    var rest := index.Keys;
    while rest != {}
      invariant rest <= index.Keys
      invariant forall name :: name in r <==> name != UNGROUPED && Members(index, rest, name) != {}
      invariant forall name :: name in r ==> r[name] == Members(index, rest, name)
      decreases rest
    {
      var id :| id in rest;
      var group := index[id];
      RevealMember(index, rest, id);
      if group != UNGROUPED {
        r := r[group := (if group in r then r[group] else {}) + {id}];
      }
      rest := rest - {id};
    }
    forall name ensures (exists id :: id in index && index[id] == name) <==> Members(index, {}, name) != {} {
      if Members(index, {}, name) != {} {
        var id :| id in Members(index, {}, name);
      }
      if id :| id in index && index[id] == name {
        assert id in Members(index, {}, name);
      }
    }
  }

  lemma RevealMember(index: map<QString, QString>, rest: set<QString>, id: QString)
    requires id in rest && id in index
    ensures forall name :: Members(index, rest - {id}, name) == (
              if index[id] == name then Members(index, rest, name) + {id} else Members(index, rest, name))
    ensures forall name :: index[id] == name ==> Members(index, rest, name) + {id} != {}
  {}

  method Save(g: Groups) returns (file: File)
    ensures SavedAs(g, file)
  {
    var reverse := ReverseMap(g.index);
    var groups: map<QString, JsonGroup> := map[];
    var rest := reverse.Keys;
    while rest != {}
      invariant rest <= reverse.Keys
      invariant forall name :: name in groups <==> name in reverse && name !in rest
      invariant forall name :: name in groups ==>
        && groups[name].Group? && (groups[name].hidden <==> name in g.collapsed)
        && Enumerates(groups[name].instances, Members(g.index, {}, name))
      decreases rest
    {
      var name :| name in rest;
      var instances := ToArray(reverse[name]);
      groups := groups[name := Group(name in g.collapsed, instances)];
      rest := rest - {name};
    }
    file := File(groups, UNGROUPED in g.collapsed);
  }

  /** Reads the groups in the order of their names, and the instances of each in the order of the array. */
  method Load(file: File) returns (g: Groups)
    ensures g == Loaded(file)
  {
    g := NO_GROUPS;
    var names := Ordered(file.groups.Keys);
    ghost var done: seq<QString> := [];
    for k := 0 to |names|
      invariant done == names[..k] && g == Read(file, done)
    {
      assert names[k] in names;
      g := LoadOne(g, file, names[k], done);
      done := done + [names[k]];
    }
    assert done == names;
    if file.ungroupedHidden {
      g := g.(collapsed := g.collapsed + {UNGROUPED});
    }
  }

  /** Reads one group, skipping the redundant empty one and malformed ones. */
  method LoadOne(g: Groups, file: File, groupName: QString, ghost done: seq<QString>) returns (h: Groups)
    requires groupName in file.groups && g == Read(file, done)
    ensures h == Read(file, done + [groupName])
  {
    h := g;
    ReadSnoc(file, done, groupName);
    if groupName == UNGROUPED || file.groups[groupName].Malformed? {
      return;
    }
    var group := file.groups[groupName];
    if group.hidden {
      h := h.(collapsed := h.collapsed + {groupName});
    }
    h := EnterAll(h, group.instances, groupName);
  }

  method EnterAll(g: Groups, instances: seq<QString>, name: QString) returns (h: Groups)
    ensures h == EnterFirst(g, instances, name, |instances|)
  {
    h := g;
    for i := 0 to |instances|
      invariant h == EnterFirst(g, instances, name, i)
    {
      h := Enter(h, instances[i], name);
    }
  }

  function EnterFirst(g: Groups, instances: seq<QString>, name: QString, k: nat): Groups
    requires k <= |instances|
  {
    if k == 0 then g else Enter(EnterFirst(g, instances, name, k - 1), instances[k - 1], name)
  }

  lemma {:induction false} EnterFirstEnrols(before: seq<Pair>, collapsed: set<QString>, instances: seq<QString>,
                                            name: QString, k: nat)
    requires k <= |instances|
    ensures EnterFirst(Enrol(before).(collapsed := collapsed), instances, name, k) ==
            Enrol(before + PairsOf(instances, name)[..k]).(collapsed := collapsed)
  {
    var pairs := PairsOf(instances, name);
    if k == 0 {
      assert before + pairs[..0] == before;
    } else {
      EnterFirstEnrols(before, collapsed, instances, name, k - 1);
      assert before + pairs[..k] == before + pairs[..k - 1] + [pairs[k - 1]];
      EnrolSnoc(before + pairs[..k - 1], pairs[k - 1]);
      EnterCollapsed(Enrol(before + pairs[..k - 1]), collapsed, instances[k - 1], name);
    }
  }

  lemma EnterCollapsed(g: Groups, collapsed: set<QString>, id: QString, group: QString)
    ensures Enter(g.(collapsed := collapsed), id, group) == Enter(g, id, group).(collapsed := collapsed)
  {}

  lemma EnrolSnoc(init: seq<Pair>, p: Pair)
    ensures Enrol(init + [p]) == Enter(Enrol(init), p.id, p.group)
  {
    assert (init + [p])[..|init|] == init;
  }

  lemma ReadSnoc(file: File, done: seq<QString>, name: QString)
    requires name in file.groups
    ensures var g := Read(file, done);
            Read(file, done + [name]) ==
            if !Readable(file, name) then g
            else
              var group := file.groups[name];
              var h := if group.hidden then g.(collapsed := g.collapsed + {name}) else g;
              EnterFirst(h, group.instances, name, |group.instances|)
  {
    assert (done + [name])[..|done|] == done;
    if Readable(file, name) {
      var ids := file.groups[name].instances;
      EnterFirstEnrols(Pairs(file, done), HiddenAmong(file, done + [name]), ids, name, |ids|);
      assert PairsOf(ids, name)[..|ids|] == PairsOf(ids, name);
      assert HiddenAmong(file, done) + {} == HiddenAmong(file, done);
    } else {
      assert Pairs(file, done) + [] == Pairs(file, done);
      assert HiddenAmong(file, done) + {} == HiddenAmong(file, done);
    }
  }
}
