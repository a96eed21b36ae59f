/** The mutable separator prefix tree, one object per node, each method tied to its meaning on tree values. */
module PrefixTrees {
  import opened Text
  import opened Separators
  import opened PathTree
  import KeyOrder
  import PathList

  class PrefixTree {
    var children: map<QString, PrefixTree>
    var contained: bool
    ghost var node: Node
    ghost var Repr: set<object>

    ghost predicate Valid()
      reads this, Repr
      ensures Valid() ==> this in Repr
      decreases Repr
    {
      && this in Repr
      && node.contained == contained
      && node.kids.Keys == children.Keys
      && (forall k :: k in children ==>
            && children[k] in Repr && children[k].Repr <= Repr && this !in children[k].Repr
            && children[k].Valid() && children[k].node == node.kids[k])
      && (forall j, k :: j in children && k in children && j != k ==> children[j].Repr !! children[k].Repr)
    }

    constructor (contained: bool)
      ensures Valid() && fresh(Repr)
      ensures node == Node(contained, map[]) && children == map[]
    {
      this.contained, children := contained, map[];
      node, Repr := Node(contained, map[]), {this};
    }

    /** Makes `child`, whose objects are new, the only thing below key. */
    method Attach(key: QString, child: PrefixTree)
      requires Valid() && child.Valid() && child.Repr !! Repr
      modifies this
      ensures Valid() && Repr == old(Repr) + child.Repr
      ensures node == old(node).(kids := old(node).kids[key := child.node])
      ensures key in children && children[key] == child
    {
      children := children[key := child];
      node := node.(kids := node.kids[key := child.node]);
      Repr := Repr + child.Repr;
    }

    /** Restores validity after the child below key has changed. */
    ghost method Refresh(key: QString)
      requires key in children && this in Repr && children[key] in Repr && this !in children[key].Repr
      requires node.contained == contained && node.kids.Keys == children.Keys
      requires children[key].Valid()
      requires forall k :: k in children && k != key ==>
            && children[k] in Repr && children[k].Repr <= Repr && this !in children[k].Repr
            && children[k].Valid() && children[k].node == node.kids[k]
      requires forall j, k :: j in children && k in children && j != k ==> children[j].Repr !! children[k].Repr
      modifies this`node, this`Repr
      ensures Valid() && Repr == old(Repr) + children[key].Repr
      ensures node == old(node).(kids := old(node).kids[key := children[key].node])
    {
      node := node.(kids := node.kids[key := children[key].node]);
      Repr := Repr + children[key].Repr;
    }

    /** Returns the node that now stands for the path. */
    method Insert(path: QString) returns (leaf: PrefixTree)
      requires Valid()
      modifies Repr
      ensures Valid() && fresh(Repr - old(Repr))
      ensures node == PathTree.Insert(old(node), Components(path))
      ensures leaf in Repr && leaf.Valid() && leaf.children == map[] && leaf.node == LEAF_NODE
      decreases |path|, 0
    {
      var sepIndex := IndexOf(path, SLASH);
      ComponentsStep(path);
      if sepIndex == -1 {
        leaf := new PrefixTree(true);
        Attach(path, leaf);
      } else {
        var prefix := path[..sepIndex];
        EnsureChild(prefix);
        leaf := InsertBelow(prefix, path[sepIndex + 1..]);
        InsertStep(old(node), prefix, Components(path[sepIndex + 1..]));
      }
    }

    method EnsureChild(key: QString)
      requires Valid()
      modifies this
      ensures Valid() && fresh(Repr - old(Repr))
      ensures key in children && node == old(node).(kids := old(node).kids[key := ChildOr(old(node), key)])
    {
      if key !in children {
        var child := new PrefixTree(false);
        Attach(key, child);
      }
    }

    method InsertBelow(key: QString, rest: QString) returns (leaf: PrefixTree)
      requires Valid() && key in children
      modifies Repr
      ensures Valid() && fresh(Repr - old(Repr))
      ensures node == old(node).(kids := old(node).kids[key := PathTree.Insert(old(node).kids[key], Components(rest))])
      ensures leaf in Repr && leaf.Valid() && leaf.children == map[] && leaf.node == LEAF_NODE
      decreases |rest|, 1
    {
      leaf := children[key].Insert(rest);
      Refresh(key);
    }

    method InsertPaths(paths: seq<QString>)
      requires Valid()
      modifies Repr
      ensures Valid() && fresh(Repr - old(Repr))
      ensures node == InsertAll(old(node), AllComponents(paths))
    {
      assert paths[0..] == paths;
      for i := 0 to |paths|
        invariant Valid() && fresh(Repr - old(Repr))
        invariant InsertAll(old(node), AllComponents(paths)) == InsertAll(node, AllComponents(paths[i..]))
      {
        assert paths[i..][1..] == paths[i + 1..];
        assert AllComponents(paths[i..])[1..] == AllComponents(paths[i + 1..]);
        var _ := Insert(paths[i]);
      }
    }

    method Covers(path: QString) returns (r: bool)
      requires Valid()
      ensures r == PathTree.Covers(node, Components(path))
      decreases Repr
    {
      if contained {
        return true;
      }
      CoversStep(node, path);
      var sepIndex := IndexOf(path, SLASH);
      var key := if sepIndex == -1 then path else path[..sepIndex];
      if key !in children {
        return false;
      }
      r := children[key].Covers(if sepIndex == -1 then [] else path[sepIndex + 1..]);
    }

    /** None is the null string; isNull says that the empty argument is the null string. */
    method Cover(path: QString, isNull: bool) returns (r: Option<QString>)
      requires Valid() && (isNull ==> path == [])
      ensures r == PathTree.Cover(node, Components(path), isNull)
      decreases Repr, 1
    {
      if contained {
        return Some([]);
      }
      CoverStep(node, path, isNull);
      var sepIndex := IndexOf(path, SLASH);
      var key := if sepIndex == -1 then path else path[..sepIndex];
      if key !in children {
        return None;
      }
      var nested := CoverBelow(key, if sepIndex == -1 then [] else path[sepIndex + 1..], sepIndex == -1);
      r := Extended(key, nested, isNull);
    }

    method CoverBelow(key: QString, rest: QString, isNull: bool) returns (r: Option<QString>)
      requires Valid() && key in children && (isNull ==> rest == [])
      ensures r == PathTree.Cover(node.kids[key], Components(rest), isNull)
      decreases Repr, 0
    {
      r := children[key].Cover(rest, isNull);
    }

    method Find(path: QString) returns (found: PrefixTree?)
      requires Valid()
      ensures found != null <==> ExistsAt(node, Components(path))
      ensures found != null ==> found in Repr && found.Valid() && found.node == NodeAt(node, Components(path))
      decreases Repr
    {
      var sepIndex := IndexOf(path, SLASH);
      ComponentsStep(path);
      var key := if sepIndex == -1 then path else path[..sepIndex];
      if key !in children {
        return null;
      }
      if sepIndex == -1 {
        found := children[key];
      } else {
        found := children[key].Find(path[sepIndex + 1..]);
      }
    }

    method Exists(path: QString) returns (r: bool)
      requires Valid()
      ensures r == ExistsAt(node, Components(path))
      decreases Repr
    {
      var sepIndex := IndexOf(path, SLASH);
      ComponentsStep(path);
      var key := if sepIndex == -1 then path else path[..sepIndex];
      if key !in children {
        return false;
      }
      if sepIndex == -1 {
        r := true;
      } else {
        r := children[key].Exists(path[sepIndex + 1..]);
      }
    }

    /** Asks for a node, contained or not. */
    method Contains(path: QString) returns (r: bool)
      requires Valid()
      ensures r == ExistsAt(node, Components(path))
    {
      var found := Find(path);
      r := found != null;
    }

    method Clear()
      requires Valid()
      modifies this`children, this`node
      ensures Valid() && Repr == old(Repr) && contained == old(contained)
      ensures children == map[] && node == Node(contained, map[])
    {
      children := map[];
      node := Node(contained, map[]);
    }

    method Remove(path: QString) returns (removed: bool)
      requires Valid()
      modifies Repr
      ensures Valid() && fresh(Repr - old(Repr))
      ensures node == PathTree.Remove(old(node), Components(path)).0
      ensures removed <==> PathTree.Remove(old(node), Components(path)).1 != Failed
    {
      var status := RemoveInternal(path);
      removed := status != Failed;
    }

    method RemoveInternal(path: QString) returns (status: Removal)
      requires Valid()
      modifies Repr
      ensures Valid() && fresh(Repr - old(Repr))
      ensures (node, status) == PathTree.Remove(old(node), Components(path))
      decreases Repr, 2
    {
      if path == [] {
        status := RemoveHere();
      } else {
        var sepIndex := IndexOf(path, SLASH);
        var key := if sepIndex == -1 then path else path[..sepIndex];
        RemoveStep(node, path);
        if key !in children {
          return Failed;
        }
        status := RemoveUnder(key, if sepIndex == -1 then [] else path[sepIndex + 1..]);
      }
    }

    method RemoveUnder(key: QString, rest: QString) returns (status: Removal)
      requires Valid() && key in children
      modifies Repr
      ensures Valid() && fresh(Repr - old(Repr))
      ensures (node, status) == RemovedUnder(old(node), key, Components(rest))
      decreases Repr, 1
    {
      status := RemoveBelow(key, rest);
      status := Settle(key, status);
    }

    /** The end of the path: a contained node loses its mark, a structural one everything below it. */
    method RemoveHere() returns (status: Removal)
      requires Valid()
      modifies this
      ensures Valid() && Repr == old(Repr)
      ensures (node, status) == PathTree.Remove(old(node), EXHAUSTED)
    {
      if !contained {
        Clear();
        return Succeeded;
      }
      contained := false;
      node := node.(contained := false);
      assert children.Keys == {} <==> node.kids == map[];
      status := if children.Keys != {} then HasChildren else Succeeded;
    }

    /** Drops the child below key when its removal left nothing there. */
    method Settle(key: QString, childStatus: Removal) returns (status: Removal)
      requires Valid()
      modifies this
      ensures Valid() && Repr == old(Repr)
      ensures (node, status) == Settled(old(node), key, childStatus)
    {
      if childStatus != Succeeded {
        return childStatus;
      }
      children := children - {key};
      node := node.(kids := node.kids - {key});
      status := if contained || children.Keys != {} then HasChildren else Succeeded;
      assert children.Keys == {} <==> node.kids == map[];
    }

    method RemoveBelow(key: QString, rest: QString) returns (status: Removal)
      requires Valid() && key in children
      modifies Repr
      ensures Valid() && fresh(Repr - old(Repr)) && key in children
      ensures var (child, result) := PathTree.Remove(old(node).kids[key], Components(rest));
              status == result && node == old(node).(kids := old(node).kids[key := child])
      decreases Repr, 0
    {
      status := children[key].RemoveInternal(rest);
      Refresh(key);
    }

    /** What the entry below key contributes to the list. */
    method KidStrings(key: QString) returns (list: seq<QString>)
      requires Valid() && key in children
      ensures list == PathList.Strings(PathList.ListKid(node, key))
      decreases Repr, 0
    {
      list := children[key].ToStringList();
      list := Prepend(key, list);
      if children[key].contained {
        list := list + [key];
      }
      PathList.StringsOfKid(node, key);
    }

    method ToStringList() returns (collected: seq<QString>)
      requires Valid()
      ensures collected == PathList.Strings(PathList.ListOf(node))
      decreases Repr, 1
    {
      collected := [];
      var rest := children.Keys;
      PathList.StringsOfAll(node);
      while rest != {}
        invariant rest <= node.kids.Keys
        invariant PathList.Strings(PathList.ListOf(node)) == collected + PathList.StringsOf(node, rest)
        decreases rest
      {
        var key := KeyOrder.FirstKey(rest);
        var list := KidStrings(key);
        PathList.StringsStep(node, rest, key);
        AppendAssociative(collected, list, PathList.StringsOf(node, rest - {key}));
        collected := collected + list;
        rest := rest - {key};
      }
    }
  }

  /** Puts the key before every string. */
  method Prepend(key: QString, below: seq<QString>) returns (list: seq<QString>)
    ensures list == PathList.WithKey(key, below)
  {
    list := below;
    for i := 0 to |list|
      invariant |list| == |below|
      invariant forall j :: 0 <= j < i ==> list[j] == key + [SLASH] + below[j]
      invariant forall j :: i <= j < |list| ==> list[j] == below[j]
    {
      list := list[i := key + [SLASH] + list[i]];
    }
  }

  function AllComponents(paths: seq<QString>): (r: seq<Path>)
    ensures |r| == |paths| && forall i :: 0 <= i < |r| ==> r[i] == Components(paths[i]) && r[i] != []
  {
    seq(|paths|, i requires 0 <= i < |paths| => Components(paths[i]))
  }

  lemma ComponentsStep(path: QString)
    ensures var i := IndexOf(path, SLASH);
            Components(path) == if i == -1 then [path] else [path[..i]] + Components(path[i + 1..])
  {}

  lemma InsertStep(n: Node, key: QString, rest: Path)
    requires rest != []
    ensures PathTree.Insert(n, [key] + rest) ==
            n.(kids := n.kids[key := ChildOr(n, key)][key := PathTree.Insert(ChildOr(n, key), rest)])
  {}

  lemma CoversStep(n: Node, path: QString)
    ensures var i := IndexOf(path, SLASH);
            var key := if i == -1 then path else path[..i];
            var rest := Components(if i == -1 then [] else path[i + 1..]);
            PathTree.Covers(n, Components(path)) ==
            (n.contained || (key in n.kids && PathTree.Covers(n.kids[key], rest)))
  {
    ComponentsStep(path);
    ComponentsStep([]);
  }

  lemma CoverStep(n: Node, path: QString, isNull: bool)
    requires isNull ==> path == []
    ensures var i := IndexOf(path, SLASH);
            var key := if i == -1 then path else path[..i];
            var rest := Components(if i == -1 then [] else path[i + 1..]);
            PathTree.Cover(n, Components(path), isNull) ==
            if n.contained then Some([])
            else if key !in n.kids then None
            else Extended(key, PathTree.Cover(n.kids[key], rest, i == -1), isNull)
  {
    ComponentsStep(path);
    ComponentsStep([]);
  }

  function RemovedUnder(n: Node, key: QString, rest: Path): (Node, Removal)
    requires key in n.kids
  {
    var (child, status) := PathTree.Remove(n.kids[key], rest);
    Settled(n.(kids := n.kids[key := child]), key, status)
  }

  /** One level of removal, with an exhausted path handed down as the empty string. */
  lemma RemoveStep(n: Node, path: QString)
    requires path != []
    ensures var i := IndexOf(path, SLASH);
            var key := if i == -1 then path else path[..i];
            PathTree.Remove(n, Components(path)) ==
            if key !in n.kids then (n, Failed)
            else RemovedUnder(n, key, Components(if i == -1 then [] else path[i + 1..]))
  {
    var i := IndexOf(path, SLASH);
    var key := if i == -1 then path else path[..i];
    var rest := Components(if i == -1 then [] else path[i + 1..]);
    ComponentsStep(path);
    ComponentsStep([]);
    RemoveUnfold(n, Components(path));
    if key in n.kids {
      RemoveExhausted(n.kids[key]);
    }
  }

  lemma RemoveUnfold(n: Node, p: Path)
    requires p != [] && p != EXHAUSTED
    ensures PathTree.Remove(n, p) == if p[0] !in n.kids then (n, Failed) else RemovedUnder(n, p[0], p[1..])
  {}

  lemma RemoveExhausted(n: Node)
    ensures PathTree.Remove(n, []) == PathTree.Remove(n, EXHAUSTED)
  {}
}
