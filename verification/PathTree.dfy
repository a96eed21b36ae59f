/**
 The value of a separator prefix tree, and what its operations mean for the set of paths it contains.

 A path is the list of components of a string; component lists that hold [] stand for the node itself. All
 statements are about every tree and every path, including paths with empty components, unless they say so.
 */
module PathTree {
  import opened Text
  import opened Separators

  type Path = seq<QString>

  datatype Node = Node(contained: bool, kids: map<QString, Node>)

  const EMPTY_NODE := Node(false, map[])
  const LEAF_NODE := Node(true, map[])

  datatype Removal = Failed | Succeeded | HasChildren

  // ---------- Strings and component lists ----------

  function Components(path: QString): (r: Path)
    ensures r != []
  {
    Split(path, SLASH)
  }

  // ---------- The operations ----------

  predicate ContainedAt(n: Node, p: Path) {
    if p == [] then n.contained else p[0] in n.kids && ContainedAt(n.kids[p[0]], p[1..])
  }

  predicate ExistsAt(n: Node, p: Path) {
    p == [] || (p[0] in n.kids && ExistsAt(n.kids[p[0]], p[1..]))
  }

  function NodeAt(n: Node, p: Path): Node
    requires ExistsAt(n, p)
  {
    if p == [] then n else NodeAt(n.kids[p[0]], p[1..])
  }

  function ChildOr(n: Node, key: QString): Node {
    if key in n.kids then n.kids[key] else EMPTY_NODE
  }

  /** The last component becomes a fresh contained leaf; whatever was below it is dropped. */
  function Insert(n: Node, p: Path): Node
    requires p != []
    decreases |p|
  {
    if |p| == 1 then n.(kids := n.kids[p[0] := LEAF_NODE])
    else n.(kids := n.kids[p[0] := Insert(ChildOr(n, p[0]), p[1..])])
  }

  function InsertAll(n: Node, paths: seq<Path>): Node
    requires forall i :: 0 <= i < |paths| ==> paths[i] != []
    decreases |paths|
  {
    if paths == [] then n else InsertAll(Insert(n, paths[0]), paths[1..])
  }

  /** Components left when the path has run out: the code goes on with an empty string. */
  const EXHAUSTED: Path := [[]]

  predicate Covers(n: Node, p: Path)
    requires p != []
  {
    n.contained || (p[0] in n.kids && Covers(n.kids[p[0]], if |p| == 1 then EXHAUSTED else p[1..]))
  }

  /** None is the null string. `isNull` says whether the (then empty) argument is itself null. */
  function Cover(n: Node, p: Path, isNull: bool): Option<QString>
    requires p != []
  {
    if n.contained then Some([])
    else if p[0] !in n.kids then None
    else
      var nested := if |p| == 1 then Cover(n.kids[p[0]], EXHAUSTED, true) else Cover(n.kids[p[0]], p[1..], false);
      Extended(p[0], nested, isNull && |p| == 1)
  }

  /** The cover found below key, as a path from here; the last component of a null path is itself null. */
  function Extended(key: QString, nested: Option<QString>, isNull: bool): Option<QString> {
    if nested == None then None
    else if nested.value == [] then (if isNull then None else Some(key))
    else Some(key + [SLASH] + nested.value)
  }

  function Remove(n: Node, p: Path): (Node, Removal) {
    if p == [] || p == EXHAUSTED then
      if !n.contained then (n.(kids := map[]), Succeeded)
      else (n.(contained := false), if n.kids != map[] then HasChildren else Succeeded)
    else if p[0] !in n.kids then (n, Failed)
    else
      var (child, status) := Remove(n.kids[p[0]], p[1..]);
      Settled(n.(kids := n.kids[p[0] := child]), p[0], status)
  }

  /** The tree n with a changed child below key, once the child is dropped if nothing was left there. */
  function Settled(n: Node, key: QString, childStatus: Removal): (Node, Removal) {
    if childStatus != Succeeded then (n, childStatus)
    else
      var left := n.(kids := n.kids - {key});
      (left, if left.contained || left.kids != map[] then HasChildren else Succeeded)
  }

  // ---------- Insertion ----------

  lemma {:induction false} InsertContains(n: Node, p: Path, q: Path)
    requires p != []
    ensures ContainedAt(Insert(n, p), q) <==> q == p || (ContainedAt(n, q) && !(p <= q))
    decreases |p|
  {
    if q != [] && q[0] == p[0] {
      assert q == [q[0]] + q[1..] && p == [p[0]] + p[1..];
      assert p <= q <==> p[1..] <= q[1..];
      if |p| > 1 {
        InsertContains(ChildOr(n, p[0]), p[1..], q[1..]);
      }
    }
  }

  /** No path of the list starts q. */
  ghost predicate NoneStarts(paths: seq<Path>, q: Path) {
    forall i :: 0 <= i < |paths| ==> !(paths[i] <= q)
  }

  /** q is in the list, and no later path starts it. */
  ghost predicate LastAt(paths: seq<Path>, q: Path, i: nat) {
    i < |paths| && paths[i] == q && NoneStarts(paths[i + 1..], q)
  }

  ghost predicate HasLast(paths: seq<Path>, q: Path) {
    exists i: nat :: LastAt(paths, q, i)
  }

  lemma LastInTail(paths: seq<Path>, q: Path)
    requires paths != []
    ensures NoneStarts(paths, q) <==> !(paths[0] <= q) && NoneStarts(paths[1..], q)
    ensures HasLast(paths, q) <==> HasLast(paths[1..], q) || (paths[0] == q && NoneStarts(paths[1..], q))
  {
    var rest := paths[1..];
    assert forall k :: 0 < k < |paths| ==> paths[k] == rest[k - 1];
    if i: nat :| LastAt(paths, q, i) {
      assert i > 0 ==> rest[i..] == paths[i + 1..] && LastAt(rest, q, i - 1);
    }
    if i: nat :| LastAt(rest, q, i) {
      assert paths[i + 2..] == rest[i + 1..];
      assert LastAt(paths, q, i + 1);
    }
    if paths[0] == q && NoneStarts(rest, q) {
      assert LastAt(paths, q, 0);
    }
  }

  /** Containment after a whole list of insertions: the last insertion that could matter decides. */
  lemma {:induction false} InsertAllContains(n: Node, paths: seq<Path>, q: Path)
    requires forall i :: 0 <= i < |paths| ==> paths[i] != []
    ensures ContainedAt(InsertAll(n, paths), q) <==> (ContainedAt(n, q) && NoneStarts(paths, q)) || HasLast(paths, q)
    decreases |paths|
  {
    if paths == [] {
    } else {
      InsertAllContains(Insert(n, paths[0]), paths[1..], q);
      InsertContains(n, paths[0], q);
      LastInTail(paths, q);
    }
  }

  // ---------- Covering ----------

  /** p followed by k empty components. */
  function Padded(p: Path, k: nat): Path {
    p + seq(k, _ => [])
  }

  ghost predicate CoveredBy(n: Node, p: Path, q: Path) {
    ContainedAt(n, q) && exists k: nat :: q <= Padded(p, k)
  }

  lemma PaddedTail(p: Path, k: nat)
    requires p != []
    ensures |p| > 1 ==> Padded(p, k)[1..] == Padded(p[1..], k)
    ensures |p| == 1 && k > 0 ==> Padded(p, k)[1..] == Padded(EXHAUSTED, k - 1)
    ensures Padded(p, k)[0] == p[0]
  {}

  lemma PaddedMore(p: Path, k: nat, m: nat)
    requires k <= m
    ensures Padded(p, k) <= Padded(p, m)
  {}

  /** covers(p) finds a contained path that starts p, where p may also be continued by empty components. */
  lemma {:induction false} CoversMeans(n: Node, p: Path)
    requires p != []
    ensures Covers(n, p) <==> exists q :: CoveredBy(n, p, q)
    decreases n
  {
    if n.contained {
      assert [] <= Padded(p, 0);
      assert CoveredBy(n, p, []);
    } else if p[0] in n.kids {
      var child, rest := n.kids[p[0]], if |p| == 1 then EXHAUSTED else p[1..];
      CoversMeans(child, rest);
      if Covers(child, rest) {
        var r :| CoveredBy(child, rest, r);
        var k: nat :| r <= Padded(rest, k);
        var q := [p[0]] + r;
        PaddedTail(p, k + 1);
        PaddedMore(rest, k, k + 1);
        assert Padded(p, k + 1) == [p[0]] + Padded(p, k + 1)[1..];
        assert q <= Padded(p, k + 1);
        assert q[1..] == r;
        assert CoveredBy(n, p, q);
      }
    }
    if !n.contained && exists q :: CoveredBy(n, p, q) {
      var q :| CoveredBy(n, p, q);
      var k: nat :| q <= Padded(p, k);
      PaddedMore(p, k, k + 1);
      PaddedTail(p, k + 1);
      assert q != [] && q[0] == p[0];
      var rest := if |p| == 1 then EXHAUSTED else p[1..];
      assert q[1..] <= Padded(p, k + 1)[1..];
      assert CoveredBy(n.kids[p[0]], rest, q[1..]);
    }
  }

  /** Inserting adds exactly the paths that p starts. */
  lemma {:induction false} InsertCovers(n: Node, p: Path, q: Path)
    requires p != [] && q != []
    ensures Covers(Insert(n, p), q) <==> Covers(n, q) || exists k: nat :: p <= Padded(q, k)
  {
    CoversMeans(Insert(n, p), q);
    CoversMeans(n, q);
    if Covers(Insert(n, p), q) {
      var r :| CoveredBy(Insert(n, p), q, r);
      InsertContains(n, p, r);
      assert CoveredBy(n, q, r) || r == p;
    }
    if exists k: nat :: p <= Padded(q, k) {
      InsertContains(n, p, p);
      assert CoveredBy(Insert(n, p), q, p);
    }
    if Covers(n, q) {
      var r :| CoveredBy(n, q, r);
      InsertContains(n, p, r);
      if p <= r {
        var k: nat :| r <= Padded(q, k);
        assert p <= Padded(q, k);
      } else {
        assert CoveredBy(Insert(n, p), q, r);
      }
    }
  }

  ghost predicate StartsPadded(p: Path, q: Path) {
    exists k: nat :: p <= Padded(q, k)
  }

  /** What is covered after a list of insertions does not depend on their order, though what is contained does. */
  lemma {:induction false} InsertAllCovers(n: Node, paths: seq<Path>, q: Path)
    requires q != [] && forall i :: 0 <= i < |paths| ==> paths[i] != []
    ensures Covers(InsertAll(n, paths), q) <==>
            Covers(n, q) || exists i :: 0 <= i < |paths| && StartsPadded(paths[i], q)
    decreases |paths|
  {
    if paths == [] {
    } else {
      InsertCovers(n, paths[0], q);
      InsertAllCovers(Insert(n, paths[0]), paths[1..], q);
      assert Covers(Insert(n, paths[0]), q) <==> Covers(n, q) || StartsPadded(paths[0], q);
      forall i | 0 <= i < |paths| && StartsPadded(paths[i], q) ensures Covers(InsertAll(n, paths), q) {
        assert i > 0 ==> paths[1..][i - 1] == paths[i];
      }
    }
  }

  /** No path of the tree has an empty component. */
  ghost predicate Clean(n: Node) {
    forall k :: k in n.kids ==> k != [] && Clean(n.kids[k])
  }

  predicate CleanPath(p: Path) {
    forall i :: 0 <= i < |p| ==> p[i] != []
  }

  /** q is the shortest contained prefix of p. */
  ghost predicate ShortestPrefix(n: Node, p: Path, q: Path) {
    q <= p && ContainedAt(n, q) && forall r :: r < q ==> !ContainedAt(n, r)
  }

  ghost predicate ContainsPrefix(n: Node, p: Path) {
    exists q :: q <= p && ContainedAt(n, q)
  }

  /** A path without the empty components at its end. */
  function Trimmed(q: Path): Path {
    if q != [] && q[|q| - 1] == [] then Trimmed(q[..|q| - 1]) else q
  }

  lemma {:induction false} TrimmedCons(x: QString, r: Path)
    ensures Trimmed([x] + r) == if Trimmed(r) == [] then Trimmed([x]) else [x] + Trimmed(r)
    decreases |r|
  {
    if r == [] {
      assert [x] + r == [x];
    } else if r[|r| - 1] == [] {
      assert ([x] + r)[..|r|] == [x] + r[..|r| - 1];
      TrimmedCons(x, r[..|r| - 1]);
    }
  }

  lemma {:induction false} TrimmedMeans(q: Path)
    ensures Trimmed(q) != [] ==> Trimmed(q)[|Trimmed(q)| - 1] != []
    ensures CleanPath(q) ==> Trimmed(q) == q
    decreases |q|
  {
    if q != [] && q[|q| - 1] == [] {
      TrimmedMeans(q[..|q| - 1]);
    }
  }

  lemma {:induction false} JoinEnds(r: Path)
    requires r != [] && r[|r| - 1] != []
    ensures Join(r, SLASH) != []
  {}

  /** What a level of cover() returns, for the cover r found below key. */
  lemma ExtendedMeans(key: QString, r: Path)
    ensures Extended(key, Some(Join(Trimmed(r), SLASH)), false) == Some(Join(Trimmed([key] + r), SLASH))
  {
    TrimmedCons(key, r);
    TrimmedMeans(r);
    if Trimmed(r) == [] {
      assert Trimmed([key]) == if key == [] then [] else [key];
    } else {
      JoinEnds(Trimmed(r));
      JoinCons(key, Trimmed(r), SLASH);
    }
  }

  /** The part of a path in which cover() looks for contained prefixes: all of it, or nothing of a null string. */
  function Scope(p: Path, isNull: bool): Path {
    if isNull then [] else p
  }

  /**
   cover() is null if and only if no prefix is contained; otherwise it is the shortest contained prefix, without the
   empty components at its end. Unlike covers(), it does not go on with empty components.
   */
  lemma {:induction false} CoverMeans(n: Node, p: Path, isNull: bool)
    requires p != [] && (isNull ==> p == EXHAUSTED)
    ensures Cover(n, p, isNull) == None <==> !ContainsPrefix(n, Scope(p, isNull))
    ensures Cover(n, p, isNull) != None ==>
            exists q :: ShortestPrefix(n, Scope(p, isNull), q) && Cover(n, p, isNull) == Some(Join(Trimmed(q), SLASH))
    decreases n
  {
    if n.contained {
      assert ShortestPrefix(n, Scope(p, isNull), []);
      assert ContainedAt(n, []) && [] <= Scope(p, isNull);
    } else if p[0] in n.kids {
      var child, rest := n.kids[p[0]], if |p| == 1 then EXHAUSTED else p[1..];
      CoverMeans(child, rest, |p| == 1);
      assert Scope(rest, |p| == 1) == p[1..] && p == [p[0]] + p[1..];
      PrefixBelow(n, p);
      if isNull {
        NothingInEmpty(n);
      } else if Cover(child, rest, |p| == 1) != None {
        var r :| ShortestPrefix(child, p[1..], r) && Cover(child, rest, |p| == 1) == Some(Join(Trimmed(r), SLASH));
        ShortestBelow(n, p, r);
        ExtendedMeans(p[0], r);
      }
    } else {
      assert forall q :: q <= Scope(p, isNull) && q != [] ==> q[0] == p[0];
    }
  }

  lemma NothingInEmpty(n: Node)
    requires !n.contained
    ensures !ContainsPrefix(n, [])
  {}

  lemma PrefixBelow(n: Node, p: Path)
    requires p != [] && !n.contained && p[0] in n.kids
    ensures ContainsPrefix(n, p) <==> ContainsPrefix(n.kids[p[0]], p[1..])
  {
    if ContainsPrefix(n, p) {
      var q :| q <= p && ContainedAt(n, q);
      assert q[1..] <= p[1..] && ContainedAt(n.kids[p[0]], q[1..]);
    }
    if ContainsPrefix(n.kids[p[0]], p[1..]) {
      var r :| r <= p[1..] && ContainedAt(n.kids[p[0]], r);
      var q := [p[0]] + r;
      assert q[1..] == r && p == [p[0]] + p[1..];
      assert q <= p && ContainedAt(n, q);
    }
  }

  lemma ShortestBelow(n: Node, p: Path, r: Path)
    requires p != [] && !n.contained && p[0] in n.kids && ShortestPrefix(n.kids[p[0]], p[1..], r)
    ensures ShortestPrefix(n, p, [p[0]] + r)
  {
    var q := [p[0]] + r;
    assert q[1..] == r && p == [p[0]] + p[1..];
    forall s | s < q ensures !ContainedAt(n, s) {
      if s != [] {
        assert s[1..] < r;
      }
    }
  }

  /** For a path without empty components, cover() is null or the shortest contained prefix itself. */
  lemma CleanCover(n: Node, p: Path)
    requires p != [] && CleanPath(p)
    ensures Cover(n, p, false) == None <==> !ContainsPrefix(n, p)
    ensures Cover(n, p, false) != None ==>
            exists q :: ShortestPrefix(n, p, q) && CleanPath(q) && Cover(n, p, false) == Some(Join(q, SLASH))
  {
    CoverMeans(n, p, false);
    if Cover(n, p, false) != None {
      var q :| ShortestPrefix(n, p, q) && Cover(n, p, false) == Some(Join(Trimmed(q), SLASH));
      TrimmedMeans(q);
      assert CleanPath(q);
    }
  }

  lemma JoinNonEmpty(r: Path)
    requires CleanPath(r)
    ensures Join(r, SLASH) == [] <==> r == []
  {}

  lemma LongerHasEmpty(q: Path, p: Path, k: nat)
    requires q <= Padded(p, k)
    ensures CleanPath(q) ==> q <= p
  {
    if |q| > |p| {
      assert q[|p|] == [];
    }
  }

  lemma Prefixes(a: Path, b: Path, c: Path)
    ensures a <= c && b <= c ==> a <= b || b <= a
    ensures a <= b && b <= c ==> a <= c
    ensures a <= b ==> a == b || a < b
  {}

  ghost predicate ContainsClean(n: Node) {
    forall q :: ContainedAt(n, q) ==> CleanPath(q)
  }

  /** Without empty components, covering a path means containing one that starts it. */
  lemma CleanCovers(n: Node, p: Path)
    requires ContainsClean(n) && p != []
    ensures Covers(n, p) <==> ContainsPrefix(n, p)
  {
    CoversMeans(n, p);
    forall q | CoveredBy(n, p, q) ensures q <= p {
      var k: nat :| q <= Padded(p, k);
      LongerHasEmpty(q, p, k);
    }
    forall q | q <= p && ContainedAt(n, q) ensures CoveredBy(n, p, q) {
      assert q <= Padded(p, 0);
    }
  }

  /** Is a continuation of p by empty components contained? */
  ghost predicate ContainsPadded(n: Node, p: Path) {
    exists k: nat :: k > 0 && ContainedAt(n, Padded(p, k))
  }

  /**
   cover() finds nothing exactly where covers() says no, if and only if a prefix of p is contained or no continuation of
   p by empty components is.
   */
  lemma CoverAgrees(n: Node, p: Path)
    requires p != []
    ensures (Cover(n, p, false) == None <==> !Covers(n, p)) <==> (ContainsPrefix(n, p) || !ContainsPadded(n, p))
  {
    CoverMeans(n, p, false);
    CoversMeans(n, p);
    if ContainsPrefix(n, p) {
      var q :| q <= p && ContainedAt(n, q);
      assert q <= Padded(p, 0) && CoveredBy(n, p, q);
    }
    if ContainsPadded(n, p) {
      var k: nat :| k > 0 && ContainedAt(n, Padded(p, k));
      assert CoveredBy(n, p, Padded(p, k));
    }
    if Covers(n, p) && !ContainsPrefix(n, p) {
      var q :| CoveredBy(n, p, q);
      var k: nat :| q <= Padded(p, k);
      assert |q| > |p| && q == Padded(p, |q| - |p|);
    }
  }

  /** With "a/" inserted, "a" is covered, but cover() does not say so. */
  lemma CoverMissesCovered()
    ensures var n := Insert(EMPTY_NODE, Components([LOWER_A, SLASH]));
            Covers(n, [[LOWER_A]]) && Cover(n, [[LOWER_A]], false) == None
  {
    var path := [[LOWER_A], []];
    assert Join(path, SLASH) == [LOWER_A, SLASH];
    SplitJoin(path, SLASH);
    var kid := Node(false, map[[] := LEAF_NODE]);
    assert Insert(EMPTY_NODE, path) == Node(false, map[[LOWER_A] := kid]) by {
      assert path[1..] == EXHAUSTED && Insert(EMPTY_NODE, EXHAUSTED) == kid;
    }
    assert Cover(LEAF_NODE, EXHAUSTED, true) == Some([]) && Cover(kid, EXHAUSTED, true) == None;
    assert Covers(LEAF_NODE, EXHAUSTED) && Covers(kid, EXHAUSTED);
  }

  lemma {:induction false} InsertClean(n: Node, p: Path)
    requires Clean(n) && p != [] && CleanPath(p)
    ensures Clean(Insert(n, p))
    decreases |p|
  {
    if |p| > 1 {
      InsertClean(ChildOr(n, p[0]), p[1..]);
    }
  }

  // ---------- Removal ----------

  /** The path that remove() acts on: one empty component at the end does not count. */
  function Target(p: Path): Path {
    if p != [] && p[|p| - 1] == [] then p[..|p| - 1] else p
  }

  /** Is q still contained after the removal of t? A structural t takes everything below it away. */
  predicate Survives(n: Node, t: Path, q: Path) {
    ContainedAt(n, q) && if ContainedAt(n, t) then q != t else !(ExistsAt(n, t) && t <= q)
  }

  /** Removal succeeds on existing nodes, and takes away one path or everything below a purely structural one. */
  lemma {:induction false} RemoveMeans(n: Node, p: Path)
    ensures Remove(n, p).1 != Failed <==> ExistsAt(n, Target(p))
    ensures Remove(n, p).1 == Failed ==> Remove(n, p).0 == n
    ensures Remove(n, p).1 == Succeeded ==> Remove(n, p).0 == EMPTY_NODE
    ensures forall q :: ContainedAt(Remove(n, p).0, q) <==> Survives(n, Target(p), q)
    decreases n
  {
    if p == [] || p == EXHAUSTED {
      assert Target(p) == [];
    } else if p[0] in n.kids {
      var child, rest := n.kids[p[0]], p[1..];
      RemoveMeans(child, rest);
      assert Target(p) == [p[0]] + Target(rest);
      forall q ensures ContainedAt(Remove(n, p).0, q) <==> Survives(n, Target(p), q) {
        if q != [] && q[0] == p[0] {
          assert q == [q[0]] + q[1..];
          assert Survives(n, Target(p), q) <==> Survives(child, Target(rest), q[1..]);
        }
      }
    } else {
      assert Target(p) != [] && Target(p)[0] == p[0];
    }
  }

  /** What is covered after a removal, for every tree and path. */
  lemma RemoveCovers(n: Node, p: Path, f: Path)
    requires f != []
    ensures Covers(Remove(n, p).0, f) <==> exists q :: CoveredBy(n, f, q) && Survives(n, Target(p), q)
  {
    var after := Remove(n, p).0;
    RemoveMeans(n, p);
    CoversMeans(after, f);
    forall q ensures CoveredBy(after, f, q) <==> CoveredBy(n, f, q) && Survives(n, Target(p), q) {
      assert ContainedAt(after, q) <==> Survives(n, Target(p), q);
    }
  }

  /** Every node other than the root that has no children is contained. */
  ghost predicate Trim(n: Node) {
    forall k :: k in n.kids ==> (n.kids[k].kids == map[] ==> n.kids[k].contained) && Trim(n.kids[k])
  }

  lemma {:induction false} InsertTrim(n: Node, p: Path)
    requires p != [] && Trim(n)
    ensures Trim(Insert(n, p)) && Insert(n, p).kids != map[]
    ensures Insert(n, p).contained == n.contained
    decreases |p|
  {
    assert p[0] in Insert(n, p).kids;
    if |p| > 1 {
      InsertTrim(ChildOr(n, p[0]), p[1..]);
    }
  }

  lemma {:induction false} RemoveTrim(n: Node, p: Path)
    requires Trim(n)
    ensures Trim(Remove(n, p).0)
    ensures Remove(n, p).1 == HasChildren ==> Remove(n, p).0.kids != map[] || Remove(n, p).0.contained
    decreases n
  {
    if !(p == [] || p == EXHAUSTED) && p[0] in n.kids {
      RemoveTrim(n.kids[p[0]], p[1..]);
      RemoveMeans(n.kids[p[0]], p[1..]);
      if Remove(n.kids[p[0]], p[1..]).1 == HasChildren {
        assert p[0] in Remove(n, p).0.kids;
      }
    }
  }

  lemma {:induction false} RemoveClean(n: Node, p: Path)
    requires Clean(n)
    ensures Clean(Remove(n, p).0)
    decreases n
  {
    if !(p == [] || p == EXHAUSTED) && p[0] in n.kids {
      RemoveClean(n.kids[p[0]], p[1..]);
    }
  }

  /** What every tree keeps whose root was never contained. */
  ghost predicate Built(n: Node) {
    !n.contained && Trim(n)
  }

  lemma InsertBuilt(n: Node, p: Path)
    requires Built(n) && p != []
    ensures Built(Insert(n, p))
  {
    InsertTrim(n, p);
  }

  lemma RemoveBuilt(n: Node, p: Path)
    requires Built(n)
    ensures Built(Remove(n, p).0)
  {
    RemoveTrim(n, p);
    RemoveMeans(n, p);
    assert ContainedAt(Remove(n, p).0, []) ==> ContainedAt(n, []);
  }

  /** And what it keeps when it is built from paths without empty components. */
  ghost predicate Proper(n: Node) {
    Built(n) && Clean(n)
  }

  lemma InsertProper(n: Node, p: Path)
    requires Proper(n) && p != [] && CleanPath(p)
    ensures Proper(Insert(n, p))
  {
    InsertBuilt(n, p);
    InsertClean(n, p);
  }

  lemma RemoveProper(n: Node, p: Path)
    requires Proper(n)
    ensures Proper(Remove(n, p).0)
  {
    RemoveBuilt(n, p);
    RemoveClean(n, p);
  }
}
