/** The list form of a prefix tree, and what a tree becomes when it is rebuilt from its own list. */
module PathList {
  import opened Text
  import opened Separators
  import opened KeyOrder
  import opened PathTree

  // ---------- The list ----------

  function Prefixed(key: QString, paths: seq<Path>): (r: seq<Path>)
    ensures |r| == |paths| && forall i :: 0 <= i < |r| ==> r[i] == [key] + paths[i]
  {
    seq(|paths|, i requires 0 <= i < |paths| => [key] + paths[i])
  }

  /** All contained paths below n; a path comes after everything below it. */
  ghost function ListOf(n: Node): seq<Path>
    decreases n, 1, 0
  {
    ListKids(n, SortedKeys(n.kids.Keys))
  }

  /** What the entry for one key contributes. */
  ghost function ListKid(n: Node, key: QString): seq<Path>
    requires key in n.kids
    decreases n, 0, 0
  {
    Prefixed(key, ListOf(n.kids[key])) + if n.kids[key].contained then [[key]] else []
  }

  ghost function ListKids(n: Node, keys: seq<QString>): seq<Path>
    requires forall i :: 0 <= i < |keys| ==> keys[i] in n.kids
    decreases n, 0, |keys| + 1
  {
    if keys == [] then [] else ListKid(n, keys[0]) + ListKids(n, keys[1..])
  }

  /** No path comes before one that it starts, or twice. */
  ghost predicate PostOrder(paths: seq<Path>) {
    forall i, j :: 0 <= i < j < |paths| ==> !(paths[i] <= paths[j])
  }

  lemma {:induction false} ListKidMeans(n: Node, key: QString)
    requires key in n.kids
    ensures forall q :: q in ListKid(n, key) <==> q != [] && q[0] == key && ContainedAt(n, q)
    ensures PostOrder(ListKid(n, key))
    decreases n, 0, 0
  {
    ListMeans(n.kids[key]);
    forall q ensures q in ListKid(n, key) <==> q != [] && q[0] == key && ContainedAt(n, q) {
      ListKidHas(n, key, q);
    }
    ListKidOrder(n, key);
  }

  /** The list of a node holds what is contained below it. */
  ghost predicate ListHolds(n: Node) {
    forall q :: q in ListOf(n) <==> q != [] && ContainedAt(n, q)
  }

  lemma ListKidHas(n: Node, key: QString, q: Path)
    requires key in n.kids && ListHolds(n.kids[key])
    ensures q in ListKid(n, key) <==> q != [] && q[0] == key && ContainedAt(n, q)
  {
    if q in ListKid(n, key) {
      ListKidSound(n, key, q);
    }
    if q != [] && q[0] == key && ContainedAt(n, q) {
      ListKidComplete(n, key, q);
    }
  }

  lemma ListKidSound(n: Node, key: QString, q: Path)
    requires key in n.kids && ListHolds(n.kids[key]) && q in ListKid(n, key)
    ensures q != [] && q[0] == key && ContainedAt(n, q)
  {
    var kid := n.kids[key];
    var below, all := Prefixed(key, ListOf(kid)), ListKid(n, key);
    var i :| 0 <= i < |all| && all[i] == q;
    if i < |below| {
      assert q == [key] + ListOf(kid)[i] && q[1..] == ListOf(kid)[i];
      assert ListOf(kid)[i] in ListOf(kid);
    } else {
      assert q == [key] && q[1..] == [];
    }
  }

  lemma ListKidComplete(n: Node, key: QString, q: Path)
    requires key in n.kids && ListHolds(n.kids[key]) && q != [] && q[0] == key && ContainedAt(n, q)
    ensures q in ListKid(n, key)
  {
    var kid := n.kids[key];
    var below, all := Prefixed(key, ListOf(kid)), ListKid(n, key);
    assert q == [key] + q[1..] && ContainedAt(kid, q[1..]);
    if q[1..] == [] {
      assert all[|below|] == q;
    } else {
      var i :| 0 <= i < |ListOf(kid)| && ListOf(kid)[i] == q[1..];
      assert all[i] == below[i] == q;
    }
  }

  lemma ListKidOrder(n: Node, key: QString)
    requires key in n.kids && ListHolds(n.kids[key]) && PostOrder(ListOf(n.kids[key]))
    ensures PostOrder(ListKid(n, key))
  {
    var kid := n.kids[key];
    var below, all := Prefixed(key, ListOf(kid)), ListKid(n, key);
    forall i, j | 0 <= i < j < |all| ensures !(all[i] <= all[j]) {
      assert all[i] == [key] + ListOf(kid)[i];
      assert all[i][1..] == ListOf(kid)[i] && ListOf(kid)[i] in ListOf(kid);
      if j < |below| {
        assert all[j] == [key] + ListOf(kid)[j] && all[j][1..] == ListOf(kid)[j];
      }
    }
  }

  lemma {:induction false} ListKidsMean(n: Node, keys: seq<QString>)
    requires forall i :: 0 <= i < |keys| ==> keys[i] in n.kids
    requires forall i, j :: 0 <= i < j < |keys| ==> keys[i] != keys[j]
    ensures forall q :: q in ListKids(n, keys) <==> q != [] && q[0] in keys && ContainedAt(n, q)
    ensures PostOrder(ListKids(n, keys))
    decreases n, 0, |keys| + 1
  {
    if keys == [] {
    } else {
      var first, rest, all := ListKid(n, keys[0]), ListKids(n, keys[1..]), ListKids(n, keys);
      ListKidMeans(n, keys[0]);
      ListKidsMean(n, keys[1..]);
      assert keys == [keys[0]] + keys[1..];
      forall i, j | 0 <= i < j < |all| ensures !(all[i] <= all[j]) {
        if j < |first| {
          assert all[i] == first[i] && all[j] == first[j];
        } else if i >= |first| {
          assert all[i] == rest[i - |first|] && all[j] == rest[j - |first|];
        } else {
          assert all[i] in first && all[j] == rest[j - |first|] && all[j] in rest;
        }
      }
    }
  }

  /** The list holds exactly the contained paths, each once, descendants first. */
  lemma {:induction false} ListMeans(n: Node)
    ensures forall q :: q in ListOf(n) <==> q != [] && ContainedAt(n, q)
    ensures forall i :: 0 <= i < |ListOf(n)| ==> ListOf(n)[i] != []
    ensures PostOrder(ListOf(n))
    decreases n, 1, 0
  {
    var paths := ListOf(n);
    ListKidsMean(n, SortedKeys(n.kids.Keys));
    forall i | 0 <= i < |paths| ensures paths[i] != [] {
      assert paths[i] in paths;
    }
  }

  // ---------- Its order ----------

  /** By the first component that differs; what is below a path comes before it. */
  ghost predicate Precedes(a: Path, b: Path) {
    a != [] && (b == [] || Lower(a[0], b[0]) || (a[0] == b[0] && Precedes(a[1..], b[1..])))
  }

  ghost predicate KeyOrdered(paths: seq<Path>) {
    forall i, j :: 0 <= i < j < |paths| ==> Precedes(paths[i], paths[j])
  }

  /** The order of the list, which with its contents determines it. */
  lemma {:induction false} ListOrder(n: Node)
    ensures KeyOrdered(ListOf(n))
    decreases n, 1, 0
  {
    var keys := SortedKeys(n.kids.Keys);
    forall i, j | 0 <= i < j < |keys| ensures Lower(keys[i], keys[j]) {
      CompareUnitsMeans(keys[i], keys[j]);
    }
    ListKidsOrder(n, keys);
  }

  lemma {:induction false} ListKidsOrder(n: Node, keys: seq<QString>)
    requires forall i :: 0 <= i < |keys| ==> keys[i] in n.kids
    requires forall i, j :: 0 <= i < j < |keys| ==> Lower(keys[i], keys[j]) && keys[i] != keys[j]
    ensures KeyOrdered(ListKids(n, keys))
    decreases n, 0, |keys| + 1
  {
    if keys == [] {
    } else {
      var first, rest := ListKid(n, keys[0]), ListKids(n, keys[1..]);
      ListKidKeyOrder(n, keys[0]);
      ListKidsOrder(n, keys[1..]);
      ListKidMeans(n, keys[0]);
      ListKidsMean(n, keys[1..]);
      forall a, b | a in first && b in rest ensures Precedes(a, b) {
        var k :| 0 < k < |keys| && keys[k] == b[0];
        assert Lower(keys[0], keys[k]);
      }
      OrderedAppend(first, rest);
    }
  }

  lemma OrderedAppend(a: seq<Path>, b: seq<Path>)
    requires KeyOrdered(a) && KeyOrdered(b) && forall x, y :: x in a && y in b ==> Precedes(x, y)
    ensures KeyOrdered(a + b)
  {}

  lemma {:induction false} ListKidKeyOrder(n: Node, key: QString)
    requires key in n.kids
    ensures KeyOrdered(ListKid(n, key))
    decreases n, 0, 0
  {
    var paths := ListOf(n.kids[key]);
    ListOrder(n.kids[key]);
    ListMeans(n.kids[key]);
    var below := Prefixed(key, paths);
    forall i, j | 0 <= i < j < |below| ensures Precedes(below[i], below[j]) {
      assert below[i][1..] == paths[i] && below[j][1..] == paths[j];
    }
    forall x | x in below ensures Precedes(x, [key]) {
      var i :| 0 <= i < |below| && below[i] == x;
      assert x[1..] == paths[i] && paths[i] in paths && [key][1..] == [];
    }
    OrderedAppend(below, if n.kids[key].contained then [[key]] else []);
  }

  // ---------- Rebuilding ----------

  /** Clearing a tree and inserting its own list, in order. */
  ghost function Reload(n: Node): Node {
    ListMeans(n);
    InsertAll(EMPTY_NODE, ListOf(n))
  }

  /** Contained, and no shorter non-empty path that starts it is. */
  ghost predicate MinimalAt(n: Node, q: Path) {
    q != [] && ContainedAt(n, q) && forall r :: r != [] && r < q ==> !ContainedAt(n, r)
  }

  lemma MinimalReloaded(n: Node, q: Path)
    requires MinimalAt(n, q)
    ensures ContainedAt(Reload(n), q)
  {
    var paths := ListOf(n);
    ListMeans(n);
    InsertAllContains(EMPTY_NODE, paths, q);
    var i :| 0 <= i < |paths| && paths[i] == q;
    var later := paths[i + 1..];
    forall j | 0 <= j < |later| ensures !(later[j] <= q) {
      assert later[j] == paths[i + 1 + j] && later[j] in paths;
    }
    assert LastAt(paths, q, i);
  }

  lemma ReloadedMinimal(n: Node, q: Path)
    requires ContainedAt(Reload(n), q)
    ensures MinimalAt(n, q)
  {
    var paths := ListOf(n);
    ListMeans(n);
    InsertAllContains(EMPTY_NODE, paths, q);
    var i: nat :| LastAt(paths, q, i);
    var later := paths[i + 1..];
    forall k | 0 <= k < |paths| ensures !(paths[k] < q) {
      assert k > i ==> paths[k] == later[k - i - 1];
    }
    assert forall r :: r != [] && ContainedAt(n, r) ==> r in paths;
  }

  /** Only the prefix-minimal paths survive: inserting an ancestor drops what is below it. */
  lemma ReloadKeepsMinimal(n: Node, q: Path)
    ensures ContainedAt(Reload(n), q) <==> MinimalAt(n, q)
  {
    if MinimalAt(n, q) {
      MinimalReloaded(n, q);
    }
    if ContainedAt(Reload(n), q) {
      ReloadedMinimal(n, q);
    }
  }

  lemma {:induction false} MinimalExists(n: Node, q: Path) returns (r: Path)
    requires q != [] && ContainedAt(n, q)
    ensures MinimalAt(n, r) && r <= q
    decreases |q|
  {
    if MinimalAt(n, q) {
      r := q;
    } else {
      var s :| s != [] && s < q && ContainedAt(n, s);
      r := MinimalExists(n, s);
    }
  }

  /** Saving and loading changes no answer of covers(), whatever the tree and the path. */
  lemma ReloadKeepsCovers(n: Node, p: Path)
    requires p != [] && !n.contained
    ensures Covers(Reload(n), p) == Covers(n, p)
  {
    CoversMeans(n, p);
    CoversMeans(Reload(n), p);
    if Covers(n, p) {
      var q :| CoveredBy(n, p, q);
      var r := MinimalExists(n, q);
      ReloadKeepsMinimal(n, r);
      var k: nat :| q <= Padded(p, k);
      assert r <= Padded(p, k);
      assert CoveredBy(Reload(n), p, r);
    }
    if Covers(Reload(n), p) {
      var q :| CoveredBy(Reload(n), p, q);
      ReloadKeepsMinimal(n, q);
      assert CoveredBy(n, p, q);
    }
  }

  /** No contained path starts another. */
  ghost predicate Antichain(n: Node) {
    forall q, r :: ContainedAt(n, q) && ContainedAt(n, r) && q <= r ==> q == r
  }

  lemma {:induction false} InsertAllTrim(n: Node, paths: seq<Path>)
    requires Trim(n) && forall i :: 0 <= i < |paths| ==> paths[i] != []
    ensures Trim(InsertAll(n, paths)) && InsertAll(n, paths).contained == n.contained
    decreases |paths|
  {
    if paths == [] {
    } else {
      InsertTrim(n, paths[0]);
      InsertAllTrim(Insert(n, paths[0]), paths[1..]);
    }
  }

  lemma {:induction false} TrimContainsSomething(n: Node) returns (q: Path)
    requires Trim(n) && (n.kids == map[] ==> n.contained)
    ensures ContainedAt(n, q)
    decreases n
  {
    if n.contained {
      q := [];
    } else {
      var k :| k in n.kids;
      var r := TrimContainsSomething(n.kids[k]);
      q := [k] + r;
      assert q[1..] == r;
    }
  }

  lemma {:induction false} TrimKeys(a: Node, b: Node, k: QString)
    requires Trim(a) && (forall q :: ContainedAt(a, q) ==> ContainedAt(b, q)) && k in a.kids
    ensures k in b.kids
  {
    var r := TrimContainsSomething(a.kids[k]);
    var q := [k] + r;
    assert q[1..] == r;
    assert ContainedAt(a, q);
  }

  /** Trees without useless leaves are determined by the paths they contain. */
  lemma {:induction false} TrimDetermined(a: Node, b: Node)
    requires Trim(a) && Trim(b) && forall q :: ContainedAt(a, q) <==> ContainedAt(b, q)
    ensures a == b
    decreases a
  {
    assert ContainedAt(a, []) <==> ContainedAt(b, []);
    forall k | k in a.kids || k in b.kids ensures k in a.kids && k in b.kids && a.kids[k] == b.kids[k] {
      if k in a.kids {
        TrimKeys(a, b, k);
      } else {
        TrimKeys(b, a, k);
      }
      forall r ensures ContainedAt(a.kids[k], r) <==> ContainedAt(b.kids[k], r) {
        var q := [k] + r;
        assert q[1..] == r;
        assert ContainedAt(a, q) <==> ContainedAt(b, q);
      }
      TrimDetermined(a.kids[k], b.kids[k]);
    }
    assert a.kids == b.kids;
  }

  lemma ReloadOfAntichain(n: Node)
    requires Trim(n) && !n.contained && Antichain(n)
    ensures Reload(n) == n
  {
    ListMeans(n);
    InsertAllTrim(EMPTY_NODE, ListOf(n));
    forall q ensures ContainedAt(Reload(n), q) <==> ContainedAt(n, q) {
      ReloadKeepsMinimal(n, q);
    }
    TrimDetermined(Reload(n), n);
  }

  /** A tree without useless leaves comes back unchanged exactly when no contained path starts another. */
  lemma ReloadIdentity(n: Node)
    requires Trim(n) && !n.contained
    ensures Reload(n) == n <==> Antichain(n)
  {
    if Antichain(n) {
      ReloadOfAntichain(n);
    }
    if Reload(n) == n {
      forall q, r | ContainedAt(n, q) && ContainedAt(n, r) && q <= r ensures q == r {
        ReloadKeepsMinimal(n, r);
        assert q == [] ==> n.contained;
      }
    }
  }

  // ---------- Nodes and contained paths ----------

  lemma {:induction false} ExistingContains(n: Node, p: Path) returns (q: Path)
    requires Trim(n) && p != [] && ExistsAt(n, p)
    ensures p <= q && ContainedAt(n, q)
  {
    var kid := n.kids[p[0]];
    var r;
    if |p| == 1 {
      r := TrimContainsSomething(kid);
    } else {
      r := ExistingContains(kid, p[1..]);
    }
    q := [p[0]] + r;
    assert q[1..] == r && p == [p[0]] + p[1..];
  }

  lemma {:induction false} ContainedBelowExists(n: Node, p: Path, q: Path)
    requires p <= q && ContainedAt(n, q)
    ensures ExistsAt(n, p)
  {
    if p == [] {
    } else {
      ContainedBelowExists(n.kids[p[0]], p[1..], q[1..]);
    }
  }

  ghost predicate ContainsBelow(n: Node, p: Path) {
    exists q :: p < q && ContainedAt(n, q)
  }

  ghost predicate ContainsAbove(n: Node, p: Path) {
    exists q :: q < p && ContainedAt(n, q)
  }

  /** A tree without useless leaves has a node for exactly the contained paths and those above one. */
  lemma ExistsMeans(n: Node, p: Path)
    requires Trim(n) && p != []
    ensures ExistsAt(n, p) <==> ContainedAt(n, p) || ContainsBelow(n, p)
  {
    if ExistsAt(n, p) {
      var q := ExistingContains(n, p);
      assert q == p || p < q;
    }
    if ContainedAt(n, p) {
      ContainedBelowExists(n, p, p);
    }
    if ContainsBelow(n, p) {
      var q :| p < q && ContainedAt(n, q);
      ContainedBelowExists(n, p, q);
    }
  }

  /** With "a/a" inserted, there is a node for "a", which is not contained. */
  lemma ExistsNotContained()
    ensures var n := Insert(EMPTY_NODE, [[LOWER_A], [LOWER_A]]);
            ExistsAt(n, [[LOWER_A]]) && !ContainedAt(n, [[LOWER_A]])
  {
    var p, q := [[LOWER_A]], [[LOWER_A], [LOWER_A]];
    InsertContains(EMPTY_NODE, q, q);
    InsertContains(EMPTY_NODE, q, p);
    ContainedBelowExists(Insert(EMPTY_NODE, q), p, q);
  }

  // ---------- Empty components ----------

  lemma {:induction false} CleanContains(n: Node)
    requires Trim(n)
    ensures Clean(n) <==> ContainsClean(n)
    decreases n
  {
    if Clean(n) {
      forall q | q != [] && ContainedAt(n, q) ensures CleanPath(q) {
        CleanContains(n.kids[q[0]]);
        assert CleanPath(q[1..]) && q[0] != [];
        forall i | 0 <= i < |q| ensures q[i] != [] {
          assert i > 0 ==> q[i] == q[1..][i - 1];
        }
      }
    }
    if ContainsClean(n) {
      forall k | k in n.kids ensures k != [] && Clean(n.kids[k]) {
        CleanBelow(n, k);
        CleanContains(n.kids[k]);
      }
    }
  }

  lemma CleanBelow(n: Node, k: QString)
    requires Trim(n) && ContainsClean(n) && k in n.kids
    ensures k != [] && ContainsClean(n.kids[k])
  {
    forall q | ContainedAt(n.kids[k], q) ensures CleanPath(q) && k != [] {
      assert ([k] + q)[1..] == q && ContainedAt(n, [k] + q);
      assert CleanPath([k] + q);
    }
    var r := TrimContainsSomething(n.kids[k]);
  }

  /** Every path with an empty component is followed by one that starts it. */
  ghost predicate UncleanDropped(paths: seq<Path>) {
    forall i :: 0 <= i < |paths| && !CleanPath(paths[i]) ==> DroppedAfter(paths, i)
  }

  ghost predicate DroppedAfter(paths: seq<Path>, i: nat)
    requires i < |paths|
  {
    exists j :: i < j < |paths| && paths[j] < paths[i]
  }

  /** A tree built from a list has no empty components if and only if all paths that have one were dropped again. */
  lemma BuiltFromList(paths: seq<Path>)
    requires forall i :: 0 <= i < |paths| ==> paths[i] != []
    ensures Built(InsertAll(EMPTY_NODE, paths))
    ensures Proper(InsertAll(EMPTY_NODE, paths)) <==> UncleanDropped(paths)
  {
    var n := InsertAll(EMPTY_NODE, paths);
    InsertAllTrim(EMPTY_NODE, paths);
    CleanContains(n);
    if UncleanDropped(paths) {
      forall q | ContainedAt(n, q) ensures CleanPath(q) {
        InsertAllContains(EMPTY_NODE, paths, q);
        var i: nat :| LastAt(paths, q, i);
        forall j | i < j < |paths| ensures !(paths[j] < q) {
          assert paths[i + 1..][j - i - 1] == paths[j];
        }
        assert !DroppedAfter(paths, i);
      }
    }
    if ContainsClean(n) {
      forall i | 0 <= i < |paths| && !CleanPath(paths[i]) ensures DroppedAfter(paths, i) {
        LastStays(paths, i);
      }
    }
  }

  /** A path that is not dropped is contained. */
  lemma {:induction false} LastStays(paths: seq<Path>, i: nat)
    requires i < |paths| && forall k :: 0 <= k < |paths| ==> paths[k] != []
    ensures DroppedAfter(paths, i) || ContainedAt(InsertAll(EMPTY_NODE, paths), paths[i])
    decreases |paths| - i
  {
    if exists j :: i < j < |paths| && paths[j] <= paths[i] {
      var j :| i < j < |paths| && paths[j] <= paths[i];
      if paths[j] == paths[i] {
        LastStays(paths, j);
      }
    } else {
      assert LastAt(paths, paths[i], i);
      InsertAllContains(EMPTY_NODE, paths, paths[i]);
    }
  }

  // ---------- As strings ----------

  function Strings(paths: seq<Path>): (r: seq<QString>)
    ensures |r| == |paths| && forall i :: 0 <= i < |r| ==> r[i] == Join(paths[i], SLASH)
  {
    seq(|paths|, i requires 0 <= i < |paths| => Join(paths[i], SLASH))
  }

  function WithKey(key: QString, list: seq<QString>): (r: seq<QString>)
    ensures |r| == |list| && forall i :: 0 <= i < |r| ==> r[i] == key + [SLASH] + list[i]
  {
    seq(|list|, i requires 0 <= i < |list| => key + [SLASH] + list[i])
  }

  lemma StringsOfKid(n: Node, key: QString)
    requires key in n.kids
    ensures Strings(ListKid(n, key)) ==
            WithKey(key, Strings(ListOf(n.kids[key]))) + if n.kids[key].contained then [key] else []
  {
    var below := ListOf(n.kids[key]);
    ListMeans(n.kids[key]);
    StringsOfPrefixed(key, below);
    StringsConcat(Prefixed(key, below), if n.kids[key].contained then [[key]] else []);
  }

  lemma StringsConcat(a: seq<Path>, b: seq<Path>)
    ensures Strings(a + b) == Strings(a) + Strings(b)
  {}

  lemma StringsOfPrefixed(key: QString, paths: seq<Path>)
    requires forall i :: 0 <= i < |paths| ==> paths[i] != []
    ensures Strings(Prefixed(key, paths)) == WithKey(key, Strings(paths))
  {}

  /** The list contributed by the given keys, as strings. */
  ghost function StringsOf(n: Node, keys: set<QString>): seq<QString>
    requires keys <= n.kids.Keys
  {
    Strings(ListKids(n, SortedKeys(keys)))
  }

  lemma StringsOfAll(n: Node)
    ensures StringsOf(n, n.kids.Keys) == Strings(ListOf(n))
    ensures StringsOf(n, {}) == []
  {}

  lemma StringsStep(n: Node, keys: set<QString>, key: QString)
    requires IsLeast(key, keys) && keys <= n.kids.Keys
    ensures StringsOf(n, keys) == Strings(ListKid(n, key)) + StringsOf(n, keys - {key})
  {
    SortedKeysStep(keys, key);
    assert SortedKeys(keys)[1..] == SortedKeys(keys - {key});
  }
}
