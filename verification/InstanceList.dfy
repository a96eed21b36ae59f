/** The instance list object: its instances, their groups, and the trash history. */
module InstanceLists {
  import opened Text
  import opened InstanceReload
  import opened InstanceGroups
  import GroupFile

  datatype Shortcut = Shortcut(name: QString)

  /** A trashed instance, with those of its shortcuts that went to the trash, too. */
  datatype Trashed = Trashed(id: QString, group: QString, shortcuts: seq<Shortcut>)

  /** A group file as it is found: absent, not a group file, or read. */
  datatype Stored = Missing | Unusable | Usable(file: GroupFile.File)

  /** The legacy file counts only when there is no group file. */
  function Chosen(file: Stored, legacy: Stored): Stored {
    if file == Missing then legacy else file
  }

  ghost function LoadedFrom(stored: Stored): Groups {
    if stored.Usable? then GroupFile.Loaded(stored.file) else NO_GROUPS
  }

  /** The shortcuts with which something works, in order. */
  function Working(shortcuts: seq<Shortcut>, works: set<Shortcut>): seq<Shortcut> {
    if shortcuts == [] then []
    else
      var last := shortcuts[|shortcuts| - 1];
      Working(shortcuts[..|shortcuts| - 1], works) + if last in works then [last] else []
  }

  /** The id under which a trashed instance comes back: ones are appended until it is not taken. */
  function FreeId(id: QString, taken: set<QString>): (r: QString)
    ensures r !in taken
    decreases LongerThan(taken, |id|)
  {
    if id in taken then
      assert id in LongerThan(taken, |id|);
      FreeId(id + [DIGIT_1], taken)
    else id
  }

  function LongerThan(ids: set<QString>, n: nat): set<QString> {
    set id | id in ids && |id| >= n
  }

  function Ones(k: nat): QString {
    seq(k, _ => DIGIT_1)
  }

  /** A trashed instance comes back under the first of its id, its id with a one, with two ones, ... not taken. */
  lemma {:induction false} FreeIdIsFirst(id: QString, taken: set<QString>) returns (k: nat)
    ensures FreeId(id, taken) == id + Ones(k)
    ensures forall j: nat :: j < k ==> id + Ones(j) in taken
    decreases LongerThan(taken, |id|)
  {
    if id in taken {
      assert id in LongerThan(taken, |id|);
      var m := FreeIdIsFirst(id + [DIGIT_1], taken);
      k := m + 1;
      assert forall j: nat :: id + [DIGIT_1] + Ones(j) == id + Ones(j + 1);
      forall j: nat | j < k ensures id + Ones(j) in taken {
        assert j == 0 ==> id + Ones(j) == id;
        assert j > 0 ==> id + [DIGIT_1] + Ones(j - 1) == id + Ones(j);
      }
    } else {
      k := 0;
      assert id + Ones(0) == id;
    }
  }

  class InstanceList {
    var instances: seq<Instance>
    var groupIndex: map<QString, QString>
    var groupNameCache: map<QString, int>
    var collapsedGroups: set<QString>
    var trashHistory: seq<Trashed>
    var probed: bool                   // the instances are known
    var groupsLoaded: bool
    var writable: bool                 // whether the group file can be written
    var saved: Option<GroupFile.File>  // the group file, as last written

    ghost function State(): Groups
      reads this
    {
      Groups(groupIndex, groupNameCache, collapsedGroups)
    }

    constructor (writable: bool)
      ensures State() == NO_GROUPS && instances == [] && trashHistory == [] && !probed && !groupsLoaded
      ensures this.writable == writable && saved == None
    {
      instances, groupIndex, groupNameCache, collapsedGroups := [], map[], map[], {};
      trashHistory, probed, groupsLoaded, saved := [], false, false, None;
      this.writable := writable;
    }

    /** Has the file been brought up to date, if the instances are known and it can be written? */
    ghost predicate FileFollows(before: Option<GroupFile.File>)
      reads this
    {
      if probed && writable then saved.Some? && GroupFile.SavedAs(State(), saved.value) else saved == before
    }

    method SaveGroupList()
      modifies this`saved
      ensures FileFollows(old(saved))
    {
      if !probed {
        return;
      }
      var file := GroupFile.Save(Groups(groupIndex, groupNameCache, collapsedGroups));
      if writable {
        saved := Some(file);
      }
    }

    /** Reads the group file or the legacy one, which is then saved in the new place. */
    method LoadGroupList(file: Stored, legacy: Stored)
      modifies this`groupIndex, this`groupNameCache, this`collapsedGroups, this`groupsLoaded, this`saved
      ensures State() == LoadedFrom(Chosen(file, legacy))
      ensures file.Usable? ==> State() == GroupFile.Loaded(file.file)
      ensures file == Missing && legacy.Usable? ==> State() == GroupFile.Loaded(legacy.file)
      ensures file == Unusable || (file == Missing && !legacy.Usable?) ==> State() == NO_GROUPS
      ensures groupsLoaded <==> old(groupsLoaded) || Chosen(file, legacy).Usable?
      ensures if file == Missing && legacy.Usable? then FileFollows(old(saved)) else saved == old(saved)
    {
      groupIndex, groupNameCache, collapsedGroups := map[], map[], {};
      var found := file;
      var migratingLegacyGroups := false;
      if file == Missing {
        if legacy == Missing {
          return;
        }
        found := legacy;
        migratingLegacyGroups := true;
      }
      if found == Unusable {
        return;
      }
      var g := GroupFile.Load(found.file);
      groupIndex, groupNameCache, collapsedGroups := g.index, g.cache, g.collapsed;
      groupsLoaded := true;
      if migratingLegacyGroups {
        SaveGroupList();
      }
    }

    /** A rescan of the instance directories. Loading the first new instance also loads the groups, once. */
    method LoadList(discovered: seq<QString>, load: Loader, file: Stored, legacy: Stored)
      requires UniqueIds(instances) && Distinct(discovered) && IsLoader(load)
      modifies this`instances, this`probed
      modifies this`groupIndex, this`groupNameCache, this`collapsedGroups, this`groupsLoaded, this`saved
      ensures instances == Reloaded(old(instances), discovered, load) && UniqueIds(instances) && probed
      ensures if !old(groupsLoaded) && HasNew(old(instances), discovered)
              then State() == LoadedFrom(Chosen(file, legacy)) else State() == old(State())
      ensures if !old(groupsLoaded) && HasNew(old(instances), discovered) && file == Missing && legacy.Usable?
              then FileFollows(old(saved)) else saved == old(saved)
    {
      ReloadedMeans(instances, discovered, load);
      probed := true;
      if !groupsLoaded && HasNew(instances, discovered) {
        LoadGroupList(file, legacy);
      }
      instances := InstanceReload.LoadList(instances, discovered, load);
    }

    method IncreaseGroupCount(group: QString)
      modifies this`groupNameCache
      ensures State() == Increase(old(State()), group)
    {
      if group == UNGROUPED {
        return;
      }
      groupNameCache := groupNameCache[group := (if group in groupNameCache then groupNameCache[group] else 0) + 1];
    }

    method DecreaseGroupCount(group: QString)
      modifies this`groupNameCache, this`collapsedGroups
      ensures State() == Decrease(old(State()), group)
    {
      if group == UNGROUPED {
        return;
      }
      var count := (if group in groupNameCache then groupNameCache[group] else 0) - 1;
      groupNameCache := groupNameCache[group := count];
      if count < 1 {
        groupNameCache := groupNameCache - {group};
        collapsedGroups := collapsedGroups - {group};
        assert groupNameCache == old(groupNameCache) - {group};
      }
    }

    method GetInstanceById(instId: QString) returns (r: Option<Instance>)
      ensures r == InstanceById(instances, instId)
    {
      if instId == [] {
        return None;
      }
      var i := 0;
      while i < |instances|
        invariant 0 <= i <= |instances|
        invariant InstanceById(instances, instId) == InstanceById(instances[i..], instId)
      {
        if instances[i].id == instId || instances[i].uuid == instId {
          return Some(instances[i]);
        }
        assert instances[i..][1..] == instances[i + 1..];
        i := i + 1;
      }
      r := None;
    }

    method GetInstanceGroup(id: QString) returns (group: QString)
      ensures group == GroupOf(State(), instances, id)
    {
      if id == [] {
        return UNGROUPED;
      }
      if id in groupIndex {
        return groupIndex[id];
      }
      var inst := GetInstanceById(id);
      if inst.Some? && inst.value.id in groupIndex {
        return groupIndex[inst.value.id];
      }
      group := UNGROUPED;
    }

    method SetInstanceGroup(id: QString, name: QString)
      modifies this`groupIndex, this`groupNameCache, this`collapsedGroups, this`saved
      ensures State() == SetGroup(old(State()), instances, id, name)
      ensures State() == old(State()) || FileFollows(old(saved))
    {
      var inst := GetInstanceById(id);
      if inst == None {
        return;
      }
      var changed := false;
      var key := inst.value.id;
      if key in groupIndex {
        if groupIndex[key] != name {
          DecreaseGroupCount(groupIndex[key]);
          groupIndex := groupIndex[key := name];
          changed := true;
        }
      } else {
        changed := true;
        groupIndex := groupIndex[id := name];
      }
      if changed {
        IncreaseGroupCount(name);
        SaveGroupList();
      }
    }

    method DeleteGroup(name: QString)
      modifies this`groupIndex, this`groupNameCache, this`collapsedGroups, this`saved
      ensures State() == InstanceGroups.DeleteGroup(old(State()), instances, name)
      ensures groupIndex == old(groupIndex) || FileFollows(old(saved))
    {
      groupNameCache := groupNameCache - {name};
      collapsedGroups := collapsedGroups - {name};
      var removed := false;
      for k := 0 to |instances|
        invariant State() == DeleteFirst(old(State()), instances, name, k)
        invariant (!removed ==> groupIndex == old(groupIndex)) && saved == old(saved)
      {
        var instID := instances[k].id;
        var instGroupName := GetInstanceGroup(instID);
        if instGroupName == name {
          groupIndex := groupIndex - {instID};
          removed := true;
        }
      }
      if removed {
        SaveGroupList();
      }
    }

    method RenameGroup(src: QString, dst: QString)
      modifies this`groupIndex, this`groupNameCache, this`collapsedGroups, this`saved
      ensures State() == InstanceGroups.RenameGroup(old(State()), instances, src, dst)
      ensures groupIndex == old(groupIndex) || FileFollows(old(saved))
    {
      groupNameCache := groupNameCache - {src};
      if src in collapsedGroups {
        collapsedGroups := collapsedGroups - {src} + {dst};
      }
      var modified := false;
      for k := 0 to |instances|
        invariant State() == RenameFirst(old(State()), instances, src, dst, k)
        invariant (!modified ==> groupIndex == old(groupIndex)) && saved == old(saved)
      {
        var instID := instances[k].id;
        var instGroupName := GetInstanceGroup(instID);
        if instGroupName == src {
          groupIndex := groupIndex[instID := dst];
          IncreaseGroupCount(dst);
          modified := true;
        }
      }
      if modified {
        SaveGroupList();
      }
    }

    /** What trashing and deleting share: the instance leaves its group. */
    method LeaveGroup(id: QString) returns (group: QString)
      modifies this`groupIndex, this`groupNameCache, this`collapsedGroups, this`saved
      ensures State() == Leave(old(State()), id) && FileFollows(old(saved))
      ensures group == OwnGroup(old(State()), id)
    {
      group := if id in groupIndex then groupIndex[id] else UNGROUPED;
      groupIndex := groupIndex - {id};
      DecreaseGroupCount(group);
      SaveGroupList();
    }

    /**
     `moved` says whether the file system could move the instance to the trash, `trashable` which
     shortcuts of the instance it could move.
     */
    method TrashInstance(id: QString, moved: bool, shortcuts: seq<Shortcut>, trashable: set<Shortcut>)
      returns (ok: bool)
      modifies this`groupIndex, this`groupNameCache, this`collapsedGroups, this`saved, this`trashHistory
      ensures ok <==> InstanceById(instances, id).Some? && moved
      ensures if InstanceById(instances, id).Some? then State() == Leave(old(State()), id) && FileFollows(old(saved))
              else State() == old(State()) && saved == old(saved)
      ensures var group := OwnGroup(old(State()), id);
              trashHistory == old(trashHistory) +
              if ok then [Trashed(id, group, Working(shortcuts, trashable))] else []
    {
      var inst := GetInstanceById(id);
      if inst == None {
        return false;
      }
      var group := LeaveGroup(id);
      if !moved {
        return false;
      }
      var trashed: seq<Shortcut> := [];
      assert shortcuts[..0] == [];
      for i := 0 to |shortcuts|
        invariant trashed == Working(shortcuts[..i], trashable)
      {
        assert shortcuts[..i + 1][..i] == shortcuts[..i];
        if shortcuts[i] in trashable {
          trashed := trashed + [shortcuts[i]];
        }
      }
      assert shortcuts[..|shortcuts|] == shortcuts;
      trashHistory := trashHistory + [Trashed(id, group, trashed)];
      ok := true;
    }

    /**
     `taken` are the ids whose directory exists; `moved` says whether the move back worked, `restorable` for which
     shortcuts it did.
     */
    method UndoTrashInstance(taken: set<QString>, moved: bool, restorable: set<Shortcut>) returns (ok: bool)
      modifies this`groupIndex, this`groupNameCache, this`collapsedGroups, this`saved, this`trashHistory
      ensures old(trashHistory) == [] ==> ok && State() == old(State()) && trashHistory == [] && saved == old(saved)
      ensures old(trashHistory) != [] ==>
              var top := old(trashHistory)[|old(trashHistory)| - 1];
              && trashHistory == old(trashHistory)[..|old(trashHistory)| - 1]
              && (ok <==> moved && AllIn(top.shortcuts, restorable))
              && if !moved then State() == old(State()) && saved == old(saved)
                 else State() == Enter(old(State()), FreeId(top.id, taken), top.group) && FileFollows(old(saved))
    {
      if trashHistory == [] {
        return true;
      }
      var top := trashHistory[|trashHistory| - 1];
      trashHistory := trashHistory[..|trashHistory| - 1];
      var id := FindFreeId(top.id, taken);
      if !moved {
        return false;
      }
      ok := RestoreShortcuts(top.shortcuts, restorable);
      groupIndex := groupIndex[id := top.group];
      IncreaseGroupCount(top.group);
      SaveGroupList();
    }

    method DeleteInstance(id: QString)
      modifies this`groupIndex, this`groupNameCache, this`collapsedGroups, this`saved
      ensures if InstanceById(instances, id).Some? then State() == Leave(old(State()), id) && FileFollows(old(saved))
              else State() == old(State()) && saved == old(saved)
    {
      var inst := GetInstanceById(id);
      if inst == None {
        return;
      }
      var _ := LeaveGroup(id);
    }

    /**
     A staged instance moved into place; `overriding` replaces an existing one, whose group stays. `targetKnown` says
     whether the target directory is configured, `moved` whether the move worked.
     */
    method CommitStagedInstance(instID: QString, groupName: QString, overriding: bool, targetKnown: bool, moved: bool)
      returns (ok: bool)
      modifies this`groupIndex, this`groupNameCache, this`saved
      ensures ok <==> targetKnown && moved
      ensures ok ==> State() == (if overriding then old(State()) else Enter(old(State()), instID, groupName))
      ensures ok ==> FileFollows(old(saved))
      ensures !ok ==> State() == old(State()) && saved == old(saved)
    {
      if !targetKnown || !moved {
        return false;
      }
      if !overriding {
        groupIndex := groupIndex[instID := groupName];
        IncreaseGroupCount(groupName);
      }
      SaveGroupList();
      ok := true;
    }
  }

  /** Is some discovered instance not in the list yet? */
  predicate HasNew(list: seq<Instance>, discovered: seq<QString>) {
    exists i :: 0 <= i < |discovered| && discovered[i] !in Ids(list)
  }

  predicate AllIn(shortcuts: seq<Shortcut>, some: set<Shortcut>) {
    forall i :: 0 <= i < |shortcuts| ==> shortcuts[i] in some
  }

  method FindFreeId(start: QString, taken: set<QString>) returns (id: QString)
    ensures id == FreeId(start, taken)
  {
    id := start;
    while id in taken
      invariant FreeId(id, taken) == FreeId(start, taken)
      decreases LongerThan(taken, |id|)
    {
      assert id in LongerThan(taken, |id|);
      id := id + [DIGIT_1];
    }
  }

  /** True when every shortcut could be restored. */
  method RestoreShortcuts(shortcuts: seq<Shortcut>, restorable: set<Shortcut>) returns (ok: bool)
    ensures ok <==> AllIn(shortcuts, restorable)
  {
    ok := true;
    for i := 0 to |shortcuts|
      invariant ok <==> forall j :: 0 <= j < i ==> shortcuts[j] in restorable
    {
      if shortcuts[i] !in restorable {
        ok := false;
      }
    }
  }

  /** Shortcuts with which it works stay, in order; the others are left out. */
  lemma {:induction false} WorkingMeans(before: seq<Shortcut>, s: Shortcut, after: seq<Shortcut>, works: set<Shortcut>)
    ensures Working(before + [s] + after, works) ==
            Working(before, works) + (if s in works then [s] else []) + Working(after, works)
    ensures Working([], works) == []
  {
    if after == [] {
      assert before + [s] + after == before + [s] && (before + [s])[..|before|] == before;
      assert Working(after, works) == [];
    } else {
      var n := |after| - 1;
      var all := before + [s] + after;
      assert all[..|all| - 1] == before + [s] + after[..n];
      WorkingMeans(before, s, after[..n], works);
      AppendAssociative(Working(before, works) + (if s in works then [s] else []), Working(after[..n], works),
                        if after[n] in works then [after[n]] else []);
    }
  }

  // ---------- Trashing and undoing ----------

  /** The state after the instance trashed under id has come back under `back`. */
  function TrashedAndBack(g: Groups, id: QString, back: QString): Groups {
    Enter(Leave(g, id), back, OwnGroup(g, id))
  }

  /** Was id the only member of a group? */
  predicate OnlyMember(g: Groups, id: QString) {
    OwnGroup(g, id) != UNGROUPED && Members(g.index, {}, g.index[id]) == {id}
  }

  /** Every count is restored; only a group that was left empty in between forgets that it was collapsed. */
  lemma CountsRestored(g: Groups, id: QString, back: QString)
    requires Exact(g)
    ensures TrashedAndBack(g, id, back).cache == g.cache
    ensures TrashedAndBack(g, id, back).collapsed ==
            if OnlyMember(g, id) then g.collapsed - {g.index[id]} else g.collapsed
  {
    var group := OwnGroup(g, id);
    if group != UNGROUPED {
      assert CountIs(g, {}, group);
      var members := Members(g.index, {}, group);
      AddOne(members, id);
      assert |members| == 1 <==> members == {id} by {
        if |members| == 1 {
          assert members - {id} == {};
        }
      }
    }
  }

  lemma MapAfterReturn(g: Groups, id: QString, back: QString)
    ensures TrashedAndBack(g, id, back).index == (g.index - {id})[back := OwnGroup(g, id)]
    ensures TrashedAndBack(g, id, back).index == g.index <==>
            if id in g.index then back == id else back in g.index && g.index[back] == UNGROUPED
  {
    var after := (g.index - {id})[back := OwnGroup(g, id)];
    assert Leave(g, id).index == g.index - {id};
    if id in g.index && back != id {
      assert id !in after;
    }
    if back != id && back in g.index && OwnGroup(g, id) == g.index[back] && id !in g.index {
      assert after == g.index;
    }
    assert back in after && after[back] == OwnGroup(g, id);
  }

  /** The counts stay right exactly when the instance does not come back under an id of some group. */
  lemma ExactAfterReturn(g: Groups, id: QString, back: QString)
    requires Exact(g)
    ensures Exact(TrashedAndBack(g, id, back)) <==> back == id || OwnGroup(g, back) == UNGROUPED
  {
    LeaveExact(g, id);
    assert Leave(g, id).index == g.index - {id};
    EnterExact(Leave(g, id), back, OwnGroup(g, id));
  }

  /**
   Trashing an instance and undoing that at once: the counts are those from before, and stay right if and only if the
   instance does not come back under a new id that is in a group; the map is restored if and only if a mapped instance
   keeps its id, or an unmapped one comes back under an id that is mapped to no group.
   */
  lemma TrashThenUndo(g: Groups, id: QString, taken: set<QString>)
    requires Exact(g)
    ensures var back := FreeId(id, taken);
            var after := TrashedAndBack(g, id, back);
            && after.cache == g.cache
            && after.index == (g.index - {id})[back := OwnGroup(g, id)]
            && (Exact(after) <==> id !in taken || OwnGroup(g, back) == UNGROUPED)
            && (after.index == g.index <==>
                if id in g.index then id !in taken else back in g.index && g.index[back] == UNGROUPED)
  {
    var back := FreeId(id, taken);
    assert back == id <==> id !in taken;
    CountsRestored(g, id, back);
    MapAfterReturn(g, id, back);
    ExactAfterReturn(g, id, back);
  }

  /**
   Undoing after other operations that kept the counts: the instance comes back into the group it was trashed from,
   whatever became of that group, and every other id stays where it is; the counts stay right if and only if the id
   it comes back under is in no group by then.
   */
  lemma TrashThenUndoLater(g: Groups, id: QString, between: seq<Op>, taken: set<QString>)
    requires Exact(g) && forall k :: 0 <= k < |between| ==> ValidOp(between[k]) && SafeAt(Leave(g, id), between, k)
    ensures var group, back := OwnGroup(g, id), FreeId(id, taken);
            var h := After(Leave(g, id), between, |between|);
            var after := Enter(h, back, group);
            && OwnGroup(after, back) == group
            && (forall x :: x != back ==> OwnGroup(after, x) == OwnGroup(h, x))
            && (Exact(after) <==> OwnGroup(h, back) == UNGROUPED)
  {
    var h := After(Leave(g, id), between, |between|);
    LeaveExact(g, id);
    SafeRun(Leave(g, id), between, |between|);
    assert ExactAfter(Leave(g, id), between, |between|);
    EnterExact(h, FreeId(id, taken), OwnGroup(g, id));
  }

  const MOVER: QString := [0x61]
  const STAYER: QString := [0x62]

  /** With the group renamed in between, the instance comes back into the old name, apart from the others. */
  lemma UndoAfterRename()
    ensures var g := Enter(Enter(NO_GROUPS, MOVER, GROUP), STAYER, GROUP);
            var between := [Rename([Instance(STAYER, [])], GROUP, OTHER_GROUP)];
            var after := Enter(After(Leave(g, MOVER), between, 1), MOVER, OwnGroup(g, MOVER));
            OwnGroup(after, MOVER) == GROUP && OwnGroup(after, STAYER) == OTHER_GROUP && Exact(after)
  {
    var g := Enter(Enter(NO_GROUPS, MOVER, GROUP), STAYER, GROUP);
    var list := [Instance(STAYER, [])];
    var between := [Rename(list, GROUP, OTHER_GROUP)];
    NoGroupsExact();
    EnterExact(NO_GROUPS, MOVER, GROUP);
    EnterExact(Enter(NO_GROUPS, MOVER, GROUP), STAYER, GROUP);
    var left := Leave(g, MOVER);
    assert left.index == map[STAYER := GROUP];
    assert AllListed(left, list, GROUP);
    assert SafeAt(left, between, 0);
    assert RenameFirst(left, list, GROUP, OTHER_GROUP, 0).index == left.index;
    TrashThenUndoLater(g, MOVER, between, {});
  }
}
