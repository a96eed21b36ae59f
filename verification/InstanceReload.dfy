/** Reloading the instance list: vanished instances are erased in contiguous ranges, from the back. */
module InstanceReload {
  import opened Text

  /** An instance as the list knows it. */
  datatype Instance = Instance(id: QString, uuid: QString)

  ghost predicate UniqueIds(list: seq<Instance>) {
    forall i, j :: 0 <= i < j < |list| ==> list[i].id != list[j].id
  }

  function Ids(list: seq<Instance>): (r: set<QString>)
    ensures forall i :: 0 <= i < |list| ==> list[i].id in r
    ensures forall id :: id in r ==> exists i :: 0 <= i < |list| && list[i].id == id
  {
    if list == [] then {} else Ids(list[..|list| - 1]) + {list[|list| - 1].id}
  }

  /** The instances whose id is in ids, in order. */
  function Keep(list: seq<Instance>, ids: set<QString>): seq<Instance> {
    if list == [] then []
    else Keep(list[..|list| - 1], ids) + if list[|list| - 1].id in ids then [list[|list| - 1]] else []
  }

  type Loader = QString -> Option<Instance>

  /** A loaded instance has the id it was loaded for. */
  ghost predicate IsLoader(load: Loader) {
    forall id :: load(id).Some? ==> load(id).value.id == id
  }

  /** The discovered instances that are not there yet and can be loaded. */
  function Loaded(discovered: seq<QString>, there: set<QString>, load: Loader): seq<Instance> {
    if discovered == [] then []
    else
      var init, id := discovered[..|discovered| - 1], discovered[|discovered| - 1];
      Loaded(init, there, load) + if id !in there && load(id).Some? then [load(id).value] else []
  }

  ghost predicate Distinct<T>(s: seq<T>) {
    forall i, j :: 0 <= i < j < |s| ==> s[i] != s[j]
  }

  function Found(discovered: seq<QString>): (r: set<QString>)
    ensures forall id :: id in r <==> id in discovered
  {
    set id | id in discovered
  }

  /** What a reload makes of the list. */
  function Reloaded(list: seq<Instance>, discovered: seq<QString>, load: Loader): seq<Instance> {
    Keep(list, Found(discovered)) + Loaded(discovered, Ids(list), load)
  }

  // ---------- Order and uniqueness of the outcome ----------

  lemma IdsSnoc(list: seq<Instance>, x: Instance)
    ensures Ids(list + [x]) == Ids(list) + {x.id}
  {}

  lemma UniqueSnoc(list: seq<Instance>, x: Instance)
    requires UniqueIds(list) && x.id !in Ids(list)
    ensures UniqueIds(list + [x])
  {}

  lemma {:induction false} KeepMeans(list: seq<Instance>, ids: set<QString>)
    requires UniqueIds(list)
    ensures UniqueIds(Keep(list, ids)) && Ids(Keep(list, ids)) == Ids(list) * ids
  {
    if list == [] {
    } else {
      var n := |list| - 1;
      KeepMeans(list[..n], ids);
      assert list == list[..n] + [list[n]] && list[n].id !in Ids(list[..n]);
      KeepSnoc(list[..n], list[n], ids);
    }
  }

  lemma KeepSnoc(init: seq<Instance>, x: Instance, ids: set<QString>)
    requires UniqueIds(Keep(init, ids)) && Ids(Keep(init, ids)) == Ids(init) * ids && x.id !in Ids(init)
    ensures UniqueIds(Keep(init + [x], ids)) && Ids(Keep(init + [x], ids)) == Ids(init + [x]) * ids
  {
    var kept := Keep(init, ids);
    assert (init + [x])[..|init|] == init;
    IdsSnoc(init, x);
    if x.id in ids {
      assert Keep(init + [x], ids) == kept + [x];
      UniqueSnoc(kept, x);
      IdsSnoc(kept, x);
    } else {
      assert Keep(init + [x], ids) == kept;
    }
  }

  lemma {:induction false} LoadedMeans(discovered: seq<QString>, there: set<QString>, load: Loader)
    requires Distinct(discovered) && IsLoader(load)
    ensures UniqueIds(Loaded(discovered, there, load))
    ensures forall id :: id in Ids(Loaded(discovered, there, load)) <==>
            id in discovered && id !in there && load(id).Some?
  {
    if discovered == [] {
    } else {
      var n := |discovered| - 1;
      var init, id := discovered[..n], discovered[n];
      LoadedMeans(init, there, load);
      var loaded := Loaded(init, there, load);
      assert discovered == init + [id];
      assert id !in init;
      if id !in there && load(id).Some? {
        IdsSnoc(loaded, load(id).value);
        UniqueSnoc(loaded, load(id).value);
      } else {
        assert loaded + [] == loaded;
      }
    }
  }

  /** Ids stay unique, and afterwards they are the discovered ones that were there or could be loaded. */
  lemma ReloadedMeans(list: seq<Instance>, discovered: seq<QString>, load: Loader)
    requires UniqueIds(list) && Distinct(discovered) && IsLoader(load)
    ensures UniqueIds(Reloaded(list, discovered, load))
    ensures forall id :: id in Ids(Reloaded(list, discovered, load)) <==>
            id in discovered && (id in Ids(list) || load(id).Some?)
  {
    var found := Found(discovered);
    KeepMeans(list, found);
    LoadedMeans(discovered, Ids(list), load);
    Appended(Keep(list, found), Loaded(discovered, Ids(list), load));
  }

  /** Does x come before y in s? */
  ghost predicate InOrder<T>(s: seq<T>, x: T, y: T) {
    exists a, b :: 0 <= a < b < |s| && s[a] == x && s[b] == y
  }

  lemma InOrderSnoc<T>(init: seq<T>, last: T, x: T, y: T)
    ensures InOrder(init, x, y) ==> InOrder(init + [last], x, y)
    ensures x in init && y == last ==> InOrder(init + [last], x, y)
  {
    var s := init + [last];
    if InOrder(init, x, y) {
      var a, b :| 0 <= a < b < |init| && init[a] == x && init[b] == y;
      assert s[a] == x && s[b] == y;
    }
    if x in init && y == last {
      var a :| 0 <= a < |init| && init[a] == x;
      assert s[a] == x && s[|init|] == y;
    }
  }

  ghost predicate InListOrder(list: seq<Instance>, r: seq<Instance>) {
    && (forall i :: 0 <= i < |r| ==> r[i] in list)
    && (forall i, j :: 0 <= i < j < |r| ==> InOrder(list, r[i], r[j]))
  }

  lemma {:induction false} KeepOrder(list: seq<Instance>, ids: set<QString>)
    ensures InListOrder(list, Keep(list, ids))
  {
    if list == [] {
    } else {
      var n := |list| - 1;
      var kept, before := Keep(list, ids), Keep(list[..n], ids);
      KeepOrder(list[..n], ids);
      assert list == list[..n] + [list[n]];
      forall i, j | 0 <= i < j < |kept| ensures InOrder(list, kept[i], kept[j]) {
        assert kept[i] == before[i] && kept[j] == if j < |before| then before[j] else list[n];
        InOrderSnoc(list[..n], list[n], kept[i], kept[j]);
      }
    }
  }

  ghost predicate InDiscoveredOrder(discovered: seq<QString>, there: set<QString>, load: Loader, r: seq<Instance>) {
    && (forall i :: 0 <= i < |r| ==> r[i].id in discovered && r[i].id !in there && load(r[i].id) == Some(r[i]))
    && (forall i, j :: 0 <= i < j < |r| ==> InOrder(discovered, r[i].id, r[j].id))
  }

  lemma {:induction false} LoadedOrder(discovered: seq<QString>, there: set<QString>, load: Loader)
    requires IsLoader(load)
    ensures InDiscoveredOrder(discovered, there, load, Loaded(discovered, there, load))
  {
    if discovered == [] {
    } else {
      var n := |discovered| - 1;
      LoadedOrder(discovered[..n], there, load);
      assert discovered == discovered[..n] + [discovered[n]];
      LoadedOneMore(discovered[..n], discovered[n], there, load, Loaded(discovered[..n], there, load));
    }
  }

  lemma LoadedOneMore(init: seq<QString>, id: QString, there: set<QString>, load: Loader, before: seq<Instance>)
    requires IsLoader(load) && InDiscoveredOrder(init, there, load, before)
    ensures InDiscoveredOrder(init + [id], there, load,
                              before + if id !in there && load(id).Some? then [load(id).value] else [])
  {
    var r := before + if id !in there && load(id).Some? then [load(id).value] else [];
    forall i, j | 0 <= i < j < |r| ensures InOrder(init + [id], r[i].id, r[j].id) {
      assert r[i] == before[i] && (j < |before| ==> r[j] == before[j]);
      InOrderSnoc(init, id, r[i].id, r[j].id);
    }
  }

  /** x was in the list and stays before y, or both are new and in the order in which they were discovered. */
  ghost predicate RightOrder(list: seq<Instance>, discovered: seq<QString>, x: Instance, y: Instance) {
    if x.id !in Ids(list) then y.id !in Ids(list) && InOrder(discovered, x.id, y.id)
    else y.id in Ids(list) ==> InOrder(list, x, y)
  }

  ghost predicate InRightOrder(list: seq<Instance>, discovered: seq<QString>, load: Loader, r: seq<Instance>) {
    && (forall i :: 0 <= i < |r| ==> if r[i].id in Ids(list) then r[i] in list else load(r[i].id) == Some(r[i]))
    && (forall i, j :: 0 <= i < j < |r| ==> RightOrder(list, discovered, r[i], r[j]))
  }

  /**
   After a reload the instances that were there are the same ones, in their old order; the new ones are as loaded, after
   them, in the order in which they were discovered.
   */
  lemma ReloadedOrder(list: seq<Instance>, discovered: seq<QString>, load: Loader)
    requires IsLoader(load)
    ensures InRightOrder(list, discovered, load, Reloaded(list, discovered, load))
  {
    KeepOrder(list, Found(discovered));
    LoadedOrder(discovered, Ids(list), load);
    KeptThenNew(list, discovered, load, Keep(list, Found(discovered)), Loaded(discovered, Ids(list), load));
  }

  lemma KeptThenNew(list: seq<Instance>, discovered: seq<QString>, load: Loader, kept: seq<Instance>,
                    found: seq<Instance>)
    requires InListOrder(list, kept) && InDiscoveredOrder(discovered, Ids(list), load, found)
    ensures InRightOrder(list, discovered, load, kept + found)
  {
    forall i | 0 <= i < |kept| ensures kept[i].id in Ids(list) {
      var a :| 0 <= a < |list| && list[a] == kept[i];
    }
    var r := kept + found;
    assert forall i :: 0 <= i < |kept| ==> r[i] == kept[i];
    assert forall i :: |kept| <= i < |r| ==> r[i] == found[i - |kept|];
  }

  lemma {:induction false} Appended(a: seq<Instance>, b: seq<Instance>)
    requires UniqueIds(a) && UniqueIds(b) && Ids(a) !! Ids(b)
    ensures UniqueIds(a + b) && Ids(a + b) == Ids(a) + Ids(b)
  {
    if b == [] {
      assert a + b == a;
    } else {
      var n := |b| - 1;
      assert a + b == (a + b[..n]) + [b[n]];
      assert b[n].id !in Ids(b[..n]);
      Appended(a, b[..n]);
      IdsSnoc(a + b[..n], b[n]);
      UniqueSnoc(a + b[..n], b[n]);
    }
  }

  // ---------- Erasing ----------

  /** The elements from position lo on that are not dead. */
  function Survivors<T>(list: seq<T>, dead: set<nat>, lo: nat): seq<T>
    requires lo <= |list|
    decreases |list| - lo
  {
    if lo == |list| then [] else (if lo in dead then [] else [list[lo]]) + Survivors(list, dead, lo + 1)
  }

  lemma {:induction false} SkipDead<T>(list: seq<T>, dead: set<nat>, lo: nat, hi: nat)
    requires lo <= hi <= |list| && forall i :: lo <= i < hi ==> i in dead
    ensures Survivors(list, dead, lo) == Survivors(list, dead, hi)
    decreases hi - lo
  {
    if lo < hi {
      SkipDead(list, dead, lo + 1, hi);
    }
  }

  lemma {:induction false} CopyAlive<T>(list: seq<T>, dead: set<nat>, lo: nat, hi: nat)
    requires lo <= hi <= |list| && forall i :: lo <= i < hi ==> i !in dead
    ensures Survivors(list, dead, lo) == list[lo..hi] + Survivors(list, dead, hi)
    decreases hi - lo
  {
    if lo < hi {
      CopyAlive(list, dead, lo + 1, hi);
      assert list[lo..hi] == [list[lo]] + list[lo + 1..hi];
      AppendAssociative([list[lo]], list[lo + 1..hi], Survivors(list, dead, hi));
    }
  }

  lemma {:induction false} SurvivorsAreKept(list: seq<Instance>, ids: set<QString>, dead: set<nat>, n: nat)
    requires n <= |list| && forall i :: 0 <= i < |list| ==> (i in dead <==> list[i].id !in ids)
    ensures Keep(list, ids) == Keep(list[..n], ids) + Survivors(list, dead, n)
    decreases |list| - n
  {
    if n == |list| {
      assert list[..n] == list;
    } else {
      SurvivorsAreKept(list, ids, dead, n + 1);
      assert list[..n + 1][..n] == list[..n];
      var one := if n in dead then [] else [list[n]];
      assert Keep(list[..n + 1], ids) == Keep(list[..n], ids) + one;
      AppendAssociative(Keep(list[..n], ids), one, Survivors(list, dead, n + 1));
    }
  }

  function Positions(list: seq<nat>): (r: set<nat>)
    ensures forall i :: i in r <==> i in list
  {
    set i | i in list
  }

  ghost predicate Descending(s: seq<nat>) {
    forall i, j :: 0 <= i < j < |s| ==> s[i] > s[j]
  }

  /** Sorts positions from last to first. */
  method SortedDown(positions: set<nat>) returns (r: seq<nat>)
    ensures Descending(r) && forall i :: i in r <==> i in positions
  {
    r := [];
    var rest := positions;
    while rest != {}
      invariant Descending(r) && rest <= positions
      invariant forall i :: i in positions <==> i in r || i in rest
      invariant forall i, k :: 0 <= i < |r| && k in rest ==> r[i] > k
      decreases rest
    {
      var top := Largest(rest);
      r := r + [top];
      rest := rest - {top};
    }
  }

  method Largest(s: set<nat>) returns (m: nat)
    requires s != {}
    ensures m in s && forall k :: k in s ==> k <= m
  {
    m :| m in s;
    var rest := s - {m};
    while rest != {}
      invariant m in s && rest <= s
      invariant forall k :: k in s && k !in rest ==> k <= m
      decreases rest
    {
      var k :| k in rest;
      if k > m {
        m := k;
      }
      rest := rest - {k};
    }
  }

  /** Where a bookmarked range has got to: everything behind it is already right. */
  ghost predicate Bookmarked<T>(list: seq<T>, now: seq<T>, dead: set<nat>, front: int, back: int) {
    && 0 <= front <= back < |list|
    && (forall i :: front <= i <= back ==> i in dead)
    && now == list[..back + 1] + Survivors(list, dead, back + 1)
  }

  /** Erases the contiguous ranges of dead positions, back to front. */
  method EraseRanges<T>(list: seq<T>, deadList: seq<nat>) returns (now: seq<T>)
    requires Descending(deadList) && forall i :: 0 <= i < |deadList| ==> deadList[i] < |list|
    ensures now == Survivors(list, Positions(deadList), 0)
  {
    ghost var dead := Positions(deadList);
    now := list;
    var frontBookmark: int, backBookmark: int := -1, -1;
    for k := 0 to |deadList|
      invariant k == 0 ==> backBookmark == -1 && now == list
      invariant k > 0 ==> frontBookmark == deadList[k - 1] && Bookmarked(list, now, dead, frontBookmark, backBookmark)
    {
      var currentItem := deadList[k];
      if backBookmark == -1 {
        backBookmark := currentItem;
        NothingDeadBehind(deadList, currentItem, |list|);
        CopyAlive(list, dead, currentItem + 1, |list|);
        assert list == list[..currentItem + 1] + list[currentItem + 1..|list|];
      } else if currentItem == frontBookmark - 1 {
      } else {
        SeamStep(list, now, deadList, k, frontBookmark, backBookmark);
        now := now[..frontBookmark] + now[backBookmark + 1..];
        backBookmark := currentItem;
      }
      frontBookmark := currentItem;
    }
    if backBookmark != -1 {
      LastStep(list, now, deadList, frontBookmark, backBookmark);
      now := now[..frontBookmark] + now[backBookmark + 1..];
    } else {
      CopyAlive(list, dead, 0, |list|);
    }
  }

  /** The first dead position of a descending list is the last one there is. */
  lemma NothingDeadBehind(deadList: seq<nat>, first: nat, end: nat)
    requires Descending(deadList) && deadList != [] && deadList[0] == first
    ensures forall i :: first < i < end ==> i !in deadList
  {}

  lemma NothingDeadBetween(deadList: seq<nat>, k: nat, front: nat)
    requires Descending(deadList) && 0 < k < |deadList| && deadList[k - 1] == front
    ensures forall i :: deadList[k] < i < front ==> i !in deadList
  {}

  /** Before the bookmarked range, everything down to the next dead position survives. */
  lemma BetweenSurvives<T>(list: seq<T>, deadList: seq<nat>, k: nat, front: int, back: int)
    requires Descending(deadList) && 0 < k < |deadList| && deadList[k - 1] == front && front <= back < |list|
    requires forall i :: front <= i <= back ==> i in Positions(deadList)
    ensures deadList[k] < front
    ensures Survivors(list, Positions(deadList), deadList[k] + 1) ==
            list[deadList[k] + 1..front] + Survivors(list, Positions(deadList), back + 1)
  {
    var dead := Positions(deadList);
    NothingDeadBetween(deadList, k, front);
    CopyAlive(list, dead, deadList[k] + 1, front);
    SkipDead(list, dead, front, back + 1);
  }

  /** At a gap, the bookmarked range goes and a new one starts. */
  lemma SeamStep<T>(list: seq<T>, now: seq<T>, deadList: seq<nat>, k: nat, front: int, back: int)
    requires Descending(deadList) && 0 < k < |deadList| && deadList[k - 1] == front && deadList[k] < |list|
    requires Bookmarked(list, now, Positions(deadList), front, back)
    ensures Bookmarked(list, now[..front] + now[back + 1..], Positions(deadList), deadList[k], deadList[k])
  {
    var dead, cur := Positions(deadList), deadList[k];
    assert cur < front;
    BetweenSurvives(list, deadList, k, front, back);
    Erased(list, back + 1, Survivors(list, dead, back + 1), front);
    assert list[..front] == list[..cur + 1] + list[cur + 1..front];
    AppendAssociative(list[..cur + 1], list[cur + 1..front], Survivors(list, dead, back + 1));
  }

  lemma LastStep<T>(list: seq<T>, now: seq<T>, deadList: seq<nat>, front: int, back: int)
    requires Descending(deadList) && deadList != [] && deadList[|deadList| - 1] == front
    requires Bookmarked(list, now, Positions(deadList), front, back)
    ensures now[..front] + now[back + 1..] == Survivors(list, Positions(deadList), 0)
  {
    var dead := Positions(deadList);
    forall i | 0 <= i < front ensures i !in deadList {}
    CopyAlive(list, dead, 0, front);
    SkipDead(list, dead, front, back + 1);
    Erased(list, back + 1, Survivors(list, dead, back + 1), front);
    assert list[..front] == list[0..front];
  }

  lemma Erased<T>(list: seq<T>, end: nat, tail: seq<T>, front: nat)
    requires front <= end <= |list|
    ensures var now := list[..end] + tail; now[..front] + now[end..] == list[..front] + tail
  {}

  /** Every id that is not gone yet, with its position. */
  ghost predicate Mapped(list: seq<Instance>, mapping: map<QString, nat>, gone: seq<QString>) {
    && (forall id :: id in mapping <==> id in Ids(list) && id !in gone)
    && (forall id :: id in mapping ==> mapping[id] < |list| && list[mapping[id]].id == id)
  }

  /** Position of every id. */
  method GetIdMapping(list: seq<Instance>) returns (out: map<QString, nat>)
    ensures Mapped(list, out, [])
  {
    out := map[];
    for i := 0 to |list|
      invariant forall id :: id in out <==> exists j :: 0 <= j < i && list[j].id == id
      invariant forall id :: id in out ==> out[id] < i && list[out[id]].id == id
    {
      out := out[list[i].id := i];
    }
  }

  /** One more discovered id: it is struck from the mapping, or loaded if it is not there. */
  lemma DiscoverOne(list: seq<Instance>, found: seq<QString>, load: Loader, ids: map<QString, nat>, id: QString)
    requires Mapped(list, ids, found) && id !in found
    ensures if id in ids then Mapped(list, ids - {id}, found + [id]) else Mapped(list, ids, found + [id])
    ensures Loaded(found + [id], Ids(list), load) ==
            Loaded(found, Ids(list), load) + if id !in ids && load(id).Some? then [load(id).value] else []
  {
    assert (found + [id])[..|found|] == found;
  }

  /** Splits the discovered ids into those that are there, struck from the mapping, and those newly loaded. */
  method Discover(list: seq<Instance>, discovered: seq<QString>, load: Loader, mapping: map<QString, nat>)
    returns (existingIds: map<QString, nat>, newList: seq<Instance>)
    requires Distinct(discovered) && Mapped(list, mapping, [])
    ensures Mapped(list, existingIds, discovered)
    ensures newList == Loaded(discovered, Ids(list), load)
  {
    existingIds, newList := mapping, [];
    assert discovered[..0] == [];
    for k := 0 to |discovered|
      invariant newList == Loaded(discovered[..k], Ids(list), load)
      invariant Mapped(list, existingIds, discovered[..k])
    {
      var id := discovered[k];
      assert discovered[..k + 1] == discovered[..k] + [id];
      DiscoverOne(list, discovered[..k], load, existingIds, id);
      if id in existingIds {
        existingIds := existingIds - {id};
      } else {
        var inst := load(id);
        if inst.Some? {
          newList := newList + [inst.value];
        }
      }
    }
    assert discovered[..|discovered|] == discovered;
  }

  /** The list after a reload. */
  method LoadList(instances: seq<Instance>, discovered: seq<QString>, load: Loader) returns (r: seq<Instance>)
    requires UniqueIds(instances) && Distinct(discovered)
    ensures r == Reloaded(instances, discovered, load)
  {
    var mapping := GetIdMapping(instances);
    var existingIds, newList := Discover(instances, discovered, load, mapping);
    var deadList := SortedDown(existingIds.Values);
    LiveAreKept(instances, discovered, existingIds, deadList);
    r := EraseRanges(instances, deadList);
    r := r + newList;
  }

  lemma LiveAreKept(list: seq<Instance>, discovered: seq<QString>, existingIds: map<QString, nat>, deadList: seq<nat>)
    requires UniqueIds(list) && Mapped(list, existingIds, discovered)
    requires forall i :: i in deadList <==> i in existingIds.Values
    ensures forall i :: 0 <= i < |deadList| ==> deadList[i] < |list|
    ensures Survivors(list, Positions(deadList), 0) == Keep(list, Found(discovered))
  {
    DeadAreUndiscovered(list, discovered, existingIds, deadList);
    SurvivorsAreKept(list, Found(discovered), Positions(deadList), 0);
    assert list[..0] == [] && Keep([], Found(discovered)) == [];
  }

  lemma DeadAreUndiscovered(list: seq<Instance>, discovered: seq<QString>, existingIds: map<QString, nat>,
                            deadList: seq<nat>)
    requires UniqueIds(list) && Mapped(list, existingIds, discovered)
    requires forall i :: i in deadList <==> i in existingIds.Values
    ensures forall i :: 0 <= i < |deadList| ==> deadList[i] < |list|
    ensures forall i :: 0 <= i < |list| ==> (i in Positions(deadList) <==> list[i].id !in Found(discovered))
  {
    forall i | 0 <= i < |deadList| ensures deadList[i] < |list| {
      assert deadList[i] in existingIds.Values;
    }
    forall i | 0 <= i < |list| ensures i in deadList <==> list[i].id !in discovered {
      var id := list[i].id;
      if id !in discovered {
        assert id in existingIds.Keys && existingIds[id] == i;
      }
    }
  }
}
