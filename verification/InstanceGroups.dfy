/**
 Group membership of instances: the map from instance ids to groups, and beside it the number of members of every
 group. Both are changed by hand in every operation; `Exact` says that they agree.
 */
module InstanceGroups {
  import opened Text
  import opened InstanceReload

  /** The ungrouped "group". */
  const UNGROUPED: QString := []

  datatype Groups = Groups(index: map<QString, QString>, cache: map<QString, int>, collapsed: set<QString>)

  const NO_GROUPS := Groups(map[], map[], {})

  // ---------- The operations ----------

  function CacheOf(g: Groups, name: QString): int {
    if name in g.cache then g.cache[name] else 0
  }

  function Increase(g: Groups, name: QString): Groups {
    if name == UNGROUPED then g else g.(cache := g.cache[name := CacheOf(g, name) + 1])
  }

  function Decrease(g: Groups, name: QString): Groups {
    if name == UNGROUPED then g
    else if CacheOf(g, name) - 1 < 1 then g.(cache := g.cache - {name}, collapsed := g.collapsed - {name})
    else g.(cache := g.cache[name := CacheOf(g, name) - 1])
  }

  /** The first instance with the given id or uuid. */
  function InstanceById(list: seq<Instance>, id: QString): (r: Option<Instance>)
    ensures r.Some? ==> r.value in list && (r.value.id == id || r.value.uuid == id)
  {
    if id == [] || list == [] then None
    else if list[0].id == id || list[0].uuid == id then Some(list[0])
    else InstanceById(list[1..], id)
  }

  function GroupOf(g: Groups, list: seq<Instance>, id: QString): QString {
    if id == [] then UNGROUPED
    else if id in g.index then g.index[id]
    else
      var inst := InstanceById(list, id);
      if inst.Some? && inst.value.id in g.index then g.index[inst.value.id] else UNGROUPED
  }

  function SetGroup(g: Groups, list: seq<Instance>, id: QString, name: QString): Groups {
    var inst := InstanceById(list, id);
    if inst == None then g
    else
      var key := inst.value.id;
      if key in g.index then
        if g.index[key] == name then g
        else
          var d := Decrease(g, g.index[key]);
          Increase(d.(index := d.index[key := name]), name)
      else Increase(g.(index := g.index[id := name]), name)
  }

  /** What deleting group `name` does for the first k instances of the list. */
  function DeleteFirst(g: Groups, list: seq<Instance>, name: QString, k: nat): Groups
    requires k <= |list|
  {
    if k == 0 then g.(cache := g.cache - {name}, collapsed := g.collapsed - {name})
    else
      var h := DeleteFirst(g, list, name, k - 1);
      if GroupOf(h, list, list[k - 1].id) == name then h.(index := h.index - {list[k - 1].id}) else h
  }

  function DeleteGroup(g: Groups, list: seq<Instance>, name: QString): Groups {
    DeleteFirst(g, list, name, |list|)
  }

  /** What renaming group src to dst does for the first k instances of the list. */
  function RenameFirst(g: Groups, list: seq<Instance>, src: QString, dst: QString, k: nat): Groups
    requires k <= |list|
  {
    if k == 0 then
      g.(cache := g.cache - {src},
         collapsed := if src in g.collapsed then g.collapsed - {src} + {dst} else g.collapsed)
    else
      var h := RenameFirst(g, list, src, dst, k - 1);
      if GroupOf(h, list, list[k - 1].id) == src
      then Increase(h.(index := h.index[list[k - 1].id := dst]), dst)
      else h
  }

  function RenameGroup(g: Groups, list: seq<Instance>, src: QString, dst: QString): Groups {
    RenameFirst(g, list, src, dst, |list|)
  }

  /** The group an id is mapped to, as an entry of the map. */
  function OwnGroup(g: Groups, id: QString): QString {
    if id in g.index then g.index[id] else UNGROUPED
  }

  /** Trashing and deleting an instance: it leaves its group. */
  function Leave(g: Groups, id: QString): Groups {
    Decrease(g.(index := g.index - {id}), OwnGroup(g, id))
  }

  /** Committing a staged instance and undoing a trashing: the id enters a group. */
  function Enter(g: Groups, id: QString, group: QString): Groups {
    Increase(g.(index := g.index[id := group]), group)
  }

  predicate Matches(inst: Instance, id: QString) {
    inst.id == id || inst.uuid == id
  }

  ghost predicate FirstMatch(list: seq<Instance>, id: QString, k: nat) {
    && k < |list| && Matches(list[k], id)
    && forall i :: 0 <= i < k ==> !Matches(list[i], id)
  }

  /** The first match; none for the empty string. */
  lemma {:induction false} InstanceByIdMeans(list: seq<Instance>, id: QString)
    ensures InstanceById(list, id) == None <==> id == [] || forall i :: 0 <= i < |list| ==> !Matches(list[i], id)
    ensures forall k: nat :: id != [] && FirstMatch(list, id, k) ==> InstanceById(list, id) == Some(list[k])
  {
    if id == [] || list == [] {
    } else if Matches(list[0], id) {
      forall k: nat | FirstMatch(list, id, k) ensures k == 0 {}
    } else {
      var rest := list[1..];
      InstanceByIdMeans(rest, id);
      assert forall i :: 0 < i < |list| ==> list[i] == rest[i - 1];
      forall k: nat | FirstMatch(list, id, k) ensures InstanceById(list, id) == Some(list[k]) {
        assert k > 0 && FirstMatch(rest, id, k - 1);
      }
    }
  }

  /** The entry of the map that setting a group under id changes. */
  function EntryFor(g: Groups, list: seq<Instance>, id: QString): QString
    requires InstanceById(list, id).Some?
  {
    var key := InstanceById(list, id).value.id;
    if key in g.index then key else id
  }

  /**
   Setting a group changes one entry of the map: that of the instance's id if there is one, and otherwise that of the id
   or uuid it was asked for. Asking again under the same id gives the new group, unless the entry of the instance's
   id was changed while the uuid it was asked for has an entry, too.
   */
  lemma SetGroupMeans(g: Groups, list: seq<Instance>, id: QString, name: QString)
    ensures InstanceById(list, id) == None ==> SetGroup(g, list, id, name) == g
    ensures InstanceById(list, id).Some? ==>
              var h, entry := SetGroup(g, list, id, name), EntryFor(g, list, id);
              && h.index == g.index[entry := name]
              && (GroupOf(h, list, id) == name <==> id == entry || id !in g.index || g.index[id] == name)
  {
    if InstanceById(list, id).Some? {
      var entry := EntryFor(g, list, id);
      assert entry in g.index && g.index[entry] == name ==> g.index[entry := name] == g.index;
    }
  }

  /** A group that loses its last member forgets that it was collapsed; other flags stay. */
  lemma SetGroupFlags(g: Groups, list: seq<Instance>, id: QString, name: QString)
    requires Exact(g) && InstanceById(list, id).Some?
    ensures var key, h := InstanceById(list, id).value.id, SetGroup(g, list, id, name);
            var emptied := key in g.index && g.index[key] != name && g.index[key] != UNGROUPED
                           && Members(g.index, {}, g.index[key]) == {key};
            h.collapsed == if emptied then g.collapsed - {g.index[key]} else g.collapsed
  {
    var key := InstanceById(list, id).value.id;
    if key in g.index && g.index[key] != UNGROUPED {
      var members := Members(g.index, {}, g.index[key]);
      assert CountIs(g, {}, g.index[key]);
      assert |members| == 1 <==> members == {key} by {
        AddOne(members, key);
        if |members| == 1 {
          assert members - {key} == {};
        }
      }
    }
  }

  // ---------- The cached counts ----------

  /** The ids mapped to a group, leaving out hidden ones. */
  function Members(index: map<QString, QString>, hidden: set<QString>, name: QString): (r: set<QString>)
    ensures forall id :: id in r <==> id in index && index[id] == name && id !in hidden
  {
    set id | id in index && index[id] == name && id !in hidden
  }

  ghost predicate CountIs(g: Groups, hidden: set<QString>, name: QString) {
    CacheOf(g, name) == |Members(g.index, hidden, name)| && (name in g.cache <==> Members(g.index, hidden, name) != {})
  }

  /** The cache counts exactly the members that are not hidden, and knows no empty group. */
  ghost predicate ExactBut(g: Groups, hidden: set<QString>) {
    && UNGROUPED !in g.cache
    && forall name :: name != UNGROUPED ==> CountIs(g, hidden, name)
  }

  ghost predicate Exact(g: Groups) {
    ExactBut(g, {})
  }

  /** How membership changes when one id is mapped to a group. */
  lemma MembersAfterMapping(index: map<QString, QString>, hidden: set<QString>, id: QString, group: QString,
                            name: QString)
    ensures Members(index[id := group], hidden - {id}, name) ==
            if name == group then Members(index, hidden, name) + {id} else Members(index, hidden, name) - {id}
  {}

  lemma AddOne(s: set<QString>, id: QString)
    ensures |s + {id}| == |s| + if id in s then 0 else 1
    ensures |s - {id}| == |s| - if id in s then 1 else 0
  {}

  /** Entering a group keeps the counts when the id was counted nowhere. */
  lemma EnterCounts(g: Groups, hidden: set<QString>, id: QString, group: QString)
    requires ExactBut(g, hidden)
    requires id in g.index ==> g.index[id] == UNGROUPED || id in hidden
    ensures ExactBut(Enter(g, id, group), hidden - {id})
  {
    var h := Enter(g, id, group);
    forall name | name != UNGROUPED ensures CountIs(h, hidden - {id}, name) {
      MembersAfterMapping(g.index, hidden, id, group, name);
      AddOne(Members(g.index, hidden, name), id);
      assert CountIs(g, hidden, name);
    }
  }

  /** Leaving a group keeps the counts, for every id. */
  lemma LeaveCounts(g: Groups, hidden: set<QString>, id: QString)
    requires ExactBut(g, hidden) && id !in hidden
    ensures ExactBut(Leave(g, id), hidden)
  {
    var h := Leave(g, id);
    var group := OwnGroup(g, id);
    forall name | name != UNGROUPED ensures CountIs(h, hidden, name) {
      assert CountIs(g, hidden, name);
      MembersAfterLeaving(g.index, hidden, id, name);
      if name == group {
        AddOne(Members(g.index, hidden, name), id);
      }
    }
  }

  lemma MembersAfterLeaving(index: map<QString, QString>, hidden: set<QString>, id: QString, name: QString)
    ensures Members(index - {id}, hidden, name) ==
            var before := Members(index, hidden, name);
            if id in index && index[id] == name then before - {id} else before
  {}

  // ---------- Exactly when each operation keeps the counts ----------

  /** A count that says too much, and stays that way. */
  ghost predicate Overcounts(g: Groups) {
    exists name :: name != UNGROUPED && CacheOf(g, name) > |Members(g.index, {}, name)|
  }

  lemma OvercountIsInexact(g: Groups)
    requires Overcounts(g)
    ensures !Exact(g)
  {
    var name :| name != UNGROUPED && CacheOf(g, name) > |Members(g.index, {}, name)|;
    assert !CountIs(g, {}, name);
  }

  /** Entering over an old group leaves the old count standing. */
  lemma EnterOvercounts(g: Groups, id: QString, group: QString)
    requires forall name :: name != UNGROUPED ==> CacheOf(g, name) >= |Members(g.index, {}, name)|
    requires id in g.index && g.index[id] != UNGROUPED
    ensures Overcounts(Enter(g, id, group))
  {
    var h, old' := Enter(g, id, group), g.index[id];
    assert {} - {id} == {};
    MembersAfterMapping(g.index, {}, id, group, old');
    AddOne(Members(g.index, {}, old'), id);
    assert CacheOf(h, old') > |Members(h.index, {}, old')|;
  }

  /** Committing and undoing keep exact counts if and only if the id was in no group. */
  lemma EnterExact(g: Groups, id: QString, group: QString)
    requires Exact(g)
    ensures Exact(Enter(g, id, group)) <==> !(id in g.index && g.index[id] != UNGROUPED)
  {
    assert {} - {id} == {};
    if id in g.index && g.index[id] != UNGROUPED {
      forall name | name != UNGROUPED ensures CacheOf(g, name) >= |Members(g.index, {}, name)| {
        assert CountIs(g, {}, name);
      }
      EnterOvercounts(g, id, group);
      OvercountIsInexact(Enter(g, id, group));
    } else {
      EnterCounts(g, {}, id, group);
    }
  }

  /** Trashing and deleting keep exact counts, whatever the id. */
  lemma LeaveExact(g: Groups, id: QString)
    requires Exact(g)
    ensures Exact(Leave(g, id))
  {
    LeaveCounts(g, {}, id);
  }

  /** Was the group asked for under a uuid that is itself a key of the map, while the instance's id is not? */
  predicate StaleKey(g: Groups, list: seq<Instance>, id: QString) {
    var inst := InstanceById(list, id);
    inst.Some? && inst.value.id !in g.index && id in g.index && g.index[id] != UNGROUPED
  }

  /** Setting a group keeps exact counts if and only if it does not overwrite a stale key. */
  lemma SetGroupExact(g: Groups, list: seq<Instance>, id: QString, name: QString)
    requires Exact(g)
    ensures Exact(SetGroup(g, list, id, name)) <==> !StaleKey(g, list, id)
  {
    var inst := InstanceById(list, id);
    if inst.Some? {
      var key := inst.value.id;
      if key in g.index && g.index[key] != name {
        var left := Leave(g, key);
        LeaveExact(g, key);
        EnterExact(left, key, name);
        assert (g.index - {key})[key := name] == g.index[key := name];
        assert SetGroup(g, list, id, name) == Enter(left, key, name);
      } else if key !in g.index {
        EnterExact(g, id, name);
      }
    }
  }

  /** With the instance's own id the condition always holds. */
  lemma OwnIdIsNotStale(g: Groups, list: seq<Instance>, id: QString)
    requires InstanceById(list, id).Some? && InstanceById(list, id).value.id == id
    ensures !StaleKey(g, list, id)
  {}

  /** Is every id of the group the id of a listed instance? */
  predicate AllListed(g: Groups, list: seq<Instance>, name: QString) {
    forall id :: id in g.index && g.index[id] == name ==> id in Ids(list)
  }

  /** Dropping a group's count hides its members. */
  lemma HideGroup(g: Groups, name: QString, collapsed: set<QString>)
    requires Exact(g) && name != UNGROUPED
    ensures ExactBut(g.(cache := g.cache - {name}, collapsed := collapsed), Members(g.index, {}, name))
  {
    var hidden := Members(g.index, {}, name);
    var h := g.(cache := g.cache - {name}, collapsed := collapsed);
    forall n | n != UNGROUPED ensures CountIs(h, hidden, n) {
      assert CountIs(g, {}, n);
      if n == name {
        assert Members(h.index, hidden, n) == {};
      } else {
        assert Members(h.index, hidden, n) == Members(g.index, {}, n);
      }
    }
  }

  /** With members of one group hidden, the counts are exact only when nothing is hidden. */
  lemma ExactMeansNothingHidden(g: Groups, hidden: set<QString>, name: QString)
    requires ExactBut(g, hidden) && name != UNGROUPED && hidden <= Members(g.index, {}, name)
    ensures Exact(g) <==> hidden == {}
  {
    if hidden != {} {
      assert CountIs(g, hidden, name);
      assert Members(g.index, {}, name) == Members(g.index, hidden, name) + hidden;
      assert Members(g.index, hidden, name) !! hidden;
      assert !CountIs(g, {}, name);
    }
  }

  /** The members of a group that the first k instances do not list. */
  function Unlisted(g: Groups, list: seq<Instance>, name: QString, k: nat): (r: set<QString>)
    requires k <= |list|
    ensures forall id :: id in r <==> id in g.index && g.index[id] == name && id !in Ids(list[..k])
  {
    set id | id in g.index && g.index[id] == name && id !in Ids(list[..k])
  }

  lemma UnlistedStep(g: Groups, list: seq<Instance>, name: QString, k: nat)
    requires k < |list|
    ensures Unlisted(g, list, name, k + 1) == Unlisted(g, list, name, k) - {list[k].id}
  {}

  lemma UnlistedEnds(g: Groups, list: seq<Instance>, name: QString)
    ensures Unlisted(g, list, name, 0) == Members(g.index, {}, name)
    ensures AllListed(g, list, name) <==> Unlisted(g, list, name, |list|) == {}
  {}

  /** Instance ids are directory names. */
  ghost predicate NamedInstances(list: seq<Instance>) {
    forall i :: 0 <= i < |list| ==> list[i].id != []
  }

  /** The map without the given ids as far as they belong to the group. */
  function Pruned(index: map<QString, QString>, name: QString, ids: set<QString>): map<QString, QString> {
    map id | id in index && !(index[id] == name && id in ids) :: index[id]
  }

  /** Deleting a group takes its listed members out of the map, and touches nothing else. */
  lemma {:induction false} DeleteIndex(g: Groups, list: seq<Instance>, name: QString, k: nat)
    requires k <= |list| && NamedInstances(list)
    ensures DeleteFirst(g, list, name, k) ==
            Groups(Pruned(g.index, name, Ids(list[..k])), g.cache - {name}, g.collapsed - {name})
  {
    if k == 0 {
      assert list[..0] == [];
      assert Pruned(g.index, name, {}) == g.index;
    } else {
      DeleteIndex(g, list, name, k - 1);
      assert list[..k] == list[..k - 1] + [list[k - 1]];
      IdsSnoc(list[..k - 1], list[k - 1]);
      DeleteStep(g, list, name, k, Ids(list[..k - 1]));
    }
  }

  lemma DeleteStep(g: Groups, list: seq<Instance>, name: QString, k: nat, ids: set<QString>)
    requires 0 < k <= |list| && NamedInstances(list)
    requires DeleteFirst(g, list, name, k - 1) ==
             Groups(Pruned(g.index, name, ids), g.cache - {name}, g.collapsed - {name})
    ensures DeleteFirst(g, list, name, k) ==
            Groups(Pruned(g.index, name, ids + {list[k - 1].id}), g.cache - {name}, g.collapsed - {name})
  {}

  /** Deleting a group keeps exact counts if and only if all its members are listed (or it is the ungrouped one). */
  lemma DeleteExact(g: Groups, list: seq<Instance>, name: QString)
    requires Exact(g) && NamedInstances(list)
    ensures Exact(DeleteGroup(g, list, name)) <==> name == UNGROUPED || AllListed(g, list, name)
  {
    var h := DeleteGroup(g, list, name);
    var hidden := if name == UNGROUPED then {} else Unlisted(g, list, name, |list|);
    DeleteIndex(g, list, name, |list|);
    UnlistedEnds(g, list, name);
    assert list[..|list|] == list;
    forall n | n != UNGROUPED ensures CountIs(h, hidden, n) {
      assert CountIs(g, {}, n);
      if n == name {
        assert Members(h.index, hidden, n) == {};
      } else {
        assert Members(h.index, hidden, n) == Members(g.index, {}, n);
      }
    }
    if name != UNGROUPED {
      ExactMeansNothingHidden(h, hidden, name);
    }
  }

  /** Renaming changes the map only at listed ids. */
  lemma {:induction false} RenameIndex(g: Groups, list: seq<Instance>, src: QString, dst: QString, k: nat)
    requires k <= |list|
    ensures var h := RenameFirst(g, list, src, dst, k);
            forall id :: id !in Ids(list[..k]) ==>
              (id in h.index <==> id in g.index) && (id in g.index ==> h.index[id] == g.index[id])
  {
    if k == 0 {
    } else {
      RenameIndex(g, list, src, dst, k - 1);
      assert list[..k] == list[..k - 1] + [list[k - 1]];
      IdsSnoc(list[..k - 1], list[k - 1]);
    }
  }

  /** An entry of the old group that one of the given instances has moves to the new group, and no other does. */
  ghost predicate RenamedIn(g: Groups, h: Groups, ids: set<QString>, src: QString, dst: QString) {
    && (forall id :: id in g.index ==>
          id in h.index && h.index[id] == if id in ids && g.index[id] == src then dst else g.index[id])
    && (forall id :: id in h.index && id !in g.index ==> id in ids && h.index[id] == dst)
  }

  /** What renaming does to the map, for every instance; ungrouped instances may get their first entry. */
  lemma {:induction false} RenameMeans(g: Groups, list: seq<Instance>, src: QString, dst: QString, k: nat)
    requires k <= |list| && NamedInstances(list) && UniqueIds(list)
    ensures RenamedIn(g, RenameFirst(g, list, src, dst, k), Ids(list[..k]), src, dst)
  {
    if k == 0 {
      assert list[..0] == [];
    } else {
      RenameMeans(g, list, src, dst, k - 1);
      KeptUntilReached(g, list, src, dst, k);
      assert list[..k] == list[..k - 1] + [list[k - 1]];
      IdsSnoc(list[..k - 1], list[k - 1]);
      RenamedStep(g, RenameFirst(g, list, src, dst, k - 1), list, Ids(list[..k - 1]), src, dst, list[k - 1].id);
    }
  }

  /** The new group is collapsed when the old one was. */
  lemma {:induction false} RenameFlags(g: Groups, list: seq<Instance>, src: QString, dst: QString, k: nat)
    requires k <= |list|
    ensures RenameFirst(g, list, src, dst, k).collapsed ==
            if src in g.collapsed then g.collapsed - {src} + {dst} else g.collapsed
  {
    if k == 0 {
    } else {
      RenameFlags(g, list, src, dst, k - 1);
    }
  }

  lemma RenamedStep(g: Groups, h: Groups, list: seq<Instance>, ids: set<QString>, src: QString, dst: QString,
                    x: QString)
    requires RenamedIn(g, h, ids, src, dst) && x !in ids && x != []
    requires (x in h.index <==> x in g.index) && (x in h.index ==> h.index[x] == g.index[x])
    ensures RenamedIn(g, if GroupOf(h, list, x) == src then Increase(h.(index := h.index[x := dst]), dst) else h,
                      ids + {x}, src, dst)
  {
    assert x in h.index ==> GroupOf(h, list, x) == g.index[x];
  }

  /** The members that renaming has not reached yet count nowhere. */
  function NotReached(g: Groups, list: seq<Instance>, src: QString, k: nat): set<QString>
    requires k <= |list|
  {
    if src == UNGROUPED then {} else Unlisted(g, list, src, k)
  }

  lemma {:induction false} RenameCounts(g: Groups, list: seq<Instance>, src: QString, dst: QString, k: nat)
    requires k <= |list| && Exact(g) && NamedInstances(list) && UniqueIds(list)
    ensures ExactBut(RenameFirst(g, list, src, dst, k), NotReached(g, list, src, k))
  {
    if k == 0 {
      RenameStart(g, list, src, dst);
    } else {
      RenameCounts(g, list, src, dst, k - 1);
      NotReachedStep(g, list, src, k);
      KeptUntilReached(g, list, src, dst, k);
      RenameOne(g, list, src, dst, k);
    }
  }

  lemma RenameOne(g: Groups, list: seq<Instance>, src: QString, dst: QString, k: nat)
    requires 0 < k <= |list| && NamedInstances(list)
    requires var h, x := RenameFirst(g, list, src, dst, k - 1), list[k - 1].id;
             && ExactBut(h, NotReached(g, list, src, k - 1))
             && x !in Ids(list[..k - 1])
             && (x in h.index <==> x in g.index) && (x in h.index ==> h.index[x] == g.index[x])
    ensures ExactBut(RenameFirst(g, list, src, dst, k), NotReached(g, list, src, k - 1) - {list[k - 1].id})
  {
    var h, x, hidden := RenameFirst(g, list, src, dst, k - 1), list[k - 1].id, NotReached(g, list, src, k - 1);
    if GroupOf(h, list, x) == src {
      EnterCounts(h, hidden, x, dst);
    } else {
      assert hidden - {x} == hidden;
    }
  }

  /** Reaching an instance takes it out of those not reached. */
  lemma NotReachedStep(g: Groups, list: seq<Instance>, src: QString, k: nat)
    requires 0 < k <= |list|
    ensures NotReached(g, list, src, k) == NotReached(g, list, src, k - 1) - {list[k - 1].id}
  {
    UnlistedStep(g, list, src, k - 1);
  }

  /** Until it is reached, an instance has the group it had. */
  lemma KeptUntilReached(g: Groups, list: seq<Instance>, src: QString, dst: QString, k: nat)
    requires 0 < k <= |list| && NamedInstances(list) && UniqueIds(list)
    ensures var h, x := RenameFirst(g, list, src, dst, k - 1), list[k - 1].id;
            && x !in Ids(list[..k - 1])
            && (x in h.index <==> x in g.index) && (x in h.index ==> h.index[x] == g.index[x])
  {
    RenameIndex(g, list, src, dst, k - 1);
    assert forall i :: 0 <= i < k - 1 ==> list[..k - 1][i] == list[i];
  }

  lemma RenameStart(g: Groups, list: seq<Instance>, src: QString, dst: QString)
    requires Exact(g)
    ensures ExactBut(RenameFirst(g, list, src, dst, 0), NotReached(g, list, src, 0))
  {
    var h := RenameFirst(g, list, src, dst, 0);
    UnlistedEnds(g, list, src);
    if src == UNGROUPED {
      assert h.cache == g.cache;
      forall n | n != UNGROUPED ensures CountIs(h, {}, n) {
        assert CountIs(g, {}, n);
      }
    } else {
      HideGroup(g, src, h.collapsed);
    }
  }

  /** Renaming a group keeps exact counts if and only if all its members are listed (or it is the ungrouped one). */
  lemma RenameExact(g: Groups, list: seq<Instance>, src: QString, dst: QString)
    requires Exact(g) && NamedInstances(list) && UniqueIds(list)
    ensures Exact(RenameGroup(g, list, src, dst)) <==> src == UNGROUPED || AllListed(g, list, src)
  {
    var h, hidden := RenameGroup(g, list, src, dst), NotReached(g, list, src, |list|);
    RenameCounts(g, list, src, dst, |list|);
    RenameIndex(g, list, src, dst, |list|);
    UnlistedEnds(g, list, src);
    if src != UNGROUPED {
      ExactMeansNothingHidden(h, hidden, src);
    }
  }

  // ---------- Whole histories ----------

  /** One operation, with the instances listed at that time. */
  datatype Op =
    | Set(list: seq<Instance>, id: QString, name: QString)
    | Delete(list: seq<Instance>, name: QString)
    | Rename(list: seq<Instance>, src: QString, dst: QString)
    | Remove(id: QString)
    | Add(id: QString, group: QString)

  ghost predicate ValidOp(op: Op) {
    match op
    case Set(list, _, _) => true
    case Delete(list, _) => NamedInstances(list)
    case Rename(list, _, _) => NamedInstances(list) && UniqueIds(list)
    case Remove(_) => true
    case Add(_, _) => true
  }

  function Apply(g: Groups, op: Op): Groups {
    match op
    case Set(list, id, name) => SetGroup(g, list, id, name)
    case Delete(list, name) => DeleteGroup(g, list, name)
    case Rename(list, src, dst) => RenameGroup(g, list, src, dst)
    case Remove(id) => Leave(g, id)
    case Add(id, group) => Enter(g, id, group)
  }

  /** The condition under which an operation keeps the counts. */
  predicate Safe(g: Groups, op: Op) {
    match op
    case Set(list, id, name) => !StaleKey(g, list, id)
    case Delete(list, name) => name == UNGROUPED || AllListed(g, list, name)
    case Rename(list, src, dst) => src == UNGROUPED || AllListed(g, list, src)
    case Remove(id) => true
    case Add(id, group) => !(id in g.index && g.index[id] != UNGROUPED)
  }

  lemma SafeIsExact(g: Groups, op: Op)
    requires Exact(g) && ValidOp(op)
    ensures Exact(Apply(g, op)) <==> Safe(g, op)
  {
    match op {
      case Set(list, id, name) => SetGroupExact(g, list, id, name);
      case Delete(list, name) => DeleteExact(g, list, name);
      case Rename(list, src, dst) => RenameExact(g, list, src, dst);
      case Remove(id) => LeaveExact(g, id);
      case Add(id, group) => EnterExact(g, id, group);
    }
  }

  /** The state after the first k operations. */
  function After(g: Groups, ops: seq<Op>, k: nat): Groups
    requires k <= |ops|
  {
    if k == 0 then g else Apply(After(g, ops, k - 1), ops[k - 1])
  }

  ghost predicate ExactAfter(g: Groups, ops: seq<Op>, k: nat)
    requires k <= |ops|
  {
    Exact(After(g, ops, k))
  }

  predicate SafeAt(g: Groups, ops: seq<Op>, k: nat)
    requires k < |ops|
  {
    Safe(After(g, ops, k), ops[k])
  }

  lemma SafeStep(g: Groups, ops: seq<Op>, k: nat)
    requires k < |ops| && ValidOp(ops[k]) && ExactAfter(g, ops, k)
    ensures ExactAfter(g, ops, k + 1) <==> SafeAt(g, ops, k)
  {
    SafeIsExact(After(g, ops, k), ops[k]);
  }

  lemma {:induction false} SafeRun(g: Groups, ops: seq<Op>, k: nat)
    requires Exact(g) && k <= |ops| && forall i :: 0 <= i < |ops| ==> ValidOp(ops[i])
    requires forall i :: 0 <= i < |ops| ==> SafeAt(g, ops, i)
    ensures ExactAfter(g, ops, k)
  {
    if k == 0 {
    } else {
      SafeRun(g, ops, k - 1);
      SafeStep(g, ops, k - 1);
    }
  }

  /** The counts are exact throughout a history if and only if every operation was safe when it came. */
  lemma HistoryExact(g: Groups, ops: seq<Op>)
    requires Exact(g) && forall i :: 0 <= i < |ops| ==> ValidOp(ops[i])
    ensures (forall k :: 0 <= k <= |ops| ==> ExactAfter(g, ops, k)) <==>
            (forall k :: 0 <= k < |ops| ==> SafeAt(g, ops, k))
  {
    if forall k :: 0 <= k <= |ops| ==> ExactAfter(g, ops, k) {
      forall k | 0 <= k < |ops| ensures SafeAt(g, ops, k) {
        assert ExactAfter(g, ops, k + 1);
        SafeStep(g, ops, k);
      }
    }
    if forall k :: 0 <= k < |ops| ==> SafeAt(g, ops, k) {
      forall k | 0 <= k <= |ops| ensures ExactAfter(g, ops, k) {
        SafeRun(g, ops, k);
      }
    }
  }

  // ---------- Histories that spoil the counts ----------

  const ID: QString := [0x61]
  const UUID: QString := [0x75]
  const GROUP: QString := [0x67]
  const OTHER_GROUP: QString := [0x68]

  lemma NoGroupsExact()
    ensures Exact(NO_GROUPS)
  {
    forall name | name != UNGROUPED ensures CountIs(NO_GROUPS, {}, name) {
      assert Members(NO_GROUPS.index, {}, name) == {};
    }
  }

  /** The first operation keeps the counts, the second does not. */
  ghost predicate SecondSpoils(first: Op, second: Op) {
    Exact(Apply(NO_GROUPS, first)) && !Exact(Apply(Apply(NO_GROUPS, first), second))
  }

  /** Setting the group of an instance twice by its uuid. */
  lemma UuidSpoils()
    ensures var list := [Instance(ID, UUID)]; SecondSpoils(Set(list, UUID, GROUP), Set(list, UUID, OTHER_GROUP))
  {
    var list := [Instance(ID, UUID)];
    var g := SetGroup(NO_GROUPS, list, UUID, GROUP);
    assert InstanceById(list, UUID) == Some(list[0]) && ID != UUID;
    NoGroupsExact();
    SetGroupExact(NO_GROUPS, list, UUID, GROUP);
    SetGroupExact(g, list, UUID, OTHER_GROUP);
    assert StaleKey(g, list, UUID);
  }

  /** Adding an id that is already in a group. */
  lemma SecondAddSpoils()
    ensures SecondSpoils(Add(ID, GROUP), Add(ID, OTHER_GROUP))
  {
    NoGroupsExact();
    EnterExact(NO_GROUPS, ID, GROUP);
    EnterExact(Enter(NO_GROUPS, ID, GROUP), ID, OTHER_GROUP);
  }

  /** Deleting or renaming a group whose member is not listed. */
  lemma UnlistedSpoils()
    ensures SecondSpoils(Add(ID, GROUP), Delete([], GROUP))
    ensures SecondSpoils(Add(ID, GROUP), Rename([], GROUP, OTHER_GROUP))
  {
    NoGroupsExact();
    EnterExact(NO_GROUPS, ID, GROUP);
    var g := Enter(NO_GROUPS, ID, GROUP);
    assert ID in g.index && g.index[ID] == GROUP && ID !in Ids([]);
    DeleteExact(g, [], GROUP);
    RenameExact(g, [], GROUP, OTHER_GROUP);
  }
}
