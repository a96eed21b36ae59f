/**
 What one click in the check-box tree does to every entry of the tree.

 An entry is left out when the blocked tree covers its path. p is the entry clicked, `before` and `after` are
 the blocked trees around the click.
 */
module IgnoreEffects {
  import opened Text
  import opened Separators
  import opened PathTree
  import opened PathList
  import opened PrefixTrees
  import opened FileIgnore

  ghost predicate InTree(root: Entry, f: Path) {
    f != [] && At(root, f).Some?
  }

  ghost predicate IsFile(root: Entry, f: Path) {
    InTree(root, f) && At(root, f).value.isFile
  }

  // ---------- Blocking ----------

  /** Unchecking p leaves out p and everything below it, and nothing else. */
  lemma BlockEffect(n: Node, p: Path, f: Path)
    requires p != [] && CleanPath(p) && f != []
    ensures Covers(Insert(n, p), f) <==> Covers(n, f) || p <= f
  {
    InsertCovers(n, p, f);
    if exists k: nat :: p <= Padded(f, k) {
      var k: nat :| p <= Padded(f, k);
      LongerHasEmpty(p, f, k);
    }
    assert Padded(f, 0) == f;
  }

  // ---------- Unblocking a node of the tree ----------

  // ---------- What a check box says ----------

  /**
   An entry is unchecked when a blocked path starts it, partially checked when that is not so but a blocked path lies
   below it, and checked otherwise.
   */
  lemma CheckStateMeans(n: Node, p: Path)
    requires Trim(n) && p != []
    ensures StateOf(n, p) == Unchecked <==> ContainsPrefix(n, p)
    ensures StateOf(n, p) == PartiallyChecked <==> !ContainsPrefix(n, p) && ContainsBelow(n, p)
  {
    CoverMeans(n, p, false);
    ExistsMeans(n, p);
    assert ContainedAt(n, p) ==> ContainsPrefix(n, p);
  }

  /** The box is unchecked exactly when the entry is left out, unless only a path with empty components covers it. */
  lemma CheckStateTells(n: Node, p: Path)
    requires p != []
    ensures (StateOf(n, p) == Unchecked <==> Covers(n, p)) <==> (ContainsPrefix(n, p) || !ContainsPadded(n, p))
    ensures Proper(n) ==> (StateOf(n, p) == Unchecked <==> Covers(n, p))
  {
    CoverAgrees(n, p);
    if Proper(n) {
      CleanContains(n);
      CoverMeans(n, p, false);
      CleanCovers(n, p);
    }
  }

  // ---------- Unblocking a node of the tree ----------

  /** After p was removed, f is left out exactly when a path that covered it survives. */
  lemma AfterRemoval(n: Node, p: Path, f: Path)
    requires p != [] && CleanPath(p) && f != []
    ensures Covers(Remove(n, p).0, f) <==> exists q :: CoveredBy(n, f, q) && Survives(n, p, q)
  {
    assert Target(p) == p;
    RemoveCovers(n, p, f);
  }

  ghost predicate BringsBackOnly(n: Node, p: Path) {
    forall f :: f != [] ==> (Covers(Remove(n, p).0, f) <==> Covers(n, f) && !(p <= f))
  }

  /**
   Checking an entry that has a node of its own brings back p and everything below it, and nothing else, if and only
   if nothing is blocked above p, and nothing below p when p itself is blocked.
   */
  lemma RemoveEffect(n: Node, p: Path)
    requires p != [] && CleanPath(p) && ExistsAt(n, p)
    ensures BringsBackOnly(n, p) <==> !ContainsAbove(n, p) && !(ContainedAt(n, p) && ContainsBelow(n, p))
  {
    if BringsBackOnly(n, p) {
      if ContainsAbove(n, p) {
        var q :| q < p && ContainedAt(n, q);
        OwnPathCovers(n, p, q);
        AfterRemoval(n, p, p);
        assert Survives(n, p, q);
      }
      if ContainedAt(n, p) && ContainsBelow(n, p) {
        var q :| p < q && ContainedAt(n, q);
        OwnPathCovers(n, q, q);
        AfterRemoval(n, p, q);
        assert Survives(n, p, q);
      }
    }
    if !ContainsAbove(n, p) && !(ContainedAt(n, p) && ContainsBelow(n, p)) {
      forall f | f != [] ensures Covers(Remove(n, p).0, f) <==> Covers(n, f) && !(p <= f) {
        NothingAround(n, p, f);
      }
    }
  }

  lemma OwnPathCovers(n: Node, f: Path, q: Path)
    requires q <= f && ContainedAt(n, q)
    ensures CoveredBy(n, f, q)
  {
    assert q <= Padded(f, 0);
  }

  lemma NothingAround(n: Node, p: Path, f: Path)
    requires p != [] && CleanPath(p) && f != [] && ExistsAt(n, p)
    requires !ContainsAbove(n, p) && !(ContainedAt(n, p) && ContainsBelow(n, p))
    ensures Covers(Remove(n, p).0, f) <==> Covers(n, f) && !(p <= f)
  {
    AfterRemoval(n, p, f);
    CoversMeans(n, f);
    forall q | CoveredBy(n, f, q) ensures Survives(n, p, q) <==> !(p <= f) {
      var k: nat :| q <= Padded(f, k);
      CleanStart(p, f, k);
      Prefixes(q, p, Padded(f, k));
      Prefixes(p, q, Padded(f, k));
    }
  }

  /** A path without empty components starts f as soon as it starts a continuation of f. */
  lemma CleanStart(p: Path, f: Path, k: nat)
    requires CleanPath(p)
    ensures p <= Padded(f, k) <==> p <= f
  {
    if p <= Padded(f, k) {
      LongerHasEmpty(p, f, k);
    }
    assert f <= Padded(f, k);
  }

  // ---------- Uncovering ----------

  /** Is f left out by a contained path other than c? */
  ghost predicate CoveredOtherwise(n: Node, c: Path, f: Path) {
    exists q :: q != c && CoveredBy(n, f, q)
  }

  /** Checking p did not find a node to remove, so its cover was lifted. */
  ghost predicate CheckedWithoutNode(root: Entry, before: Node, after: Node, p: Path) {
    && ValidEntry(root) && InTree(root, p) && !before.contained
    && Remove(before, p).1 == Failed
    && Uncovered(WithoutCover(before, p), after, root, UncoverRoot(before, p), p)
  }

  /** An entry without a node is covered by its own beginnings only. */
  lemma NoNodeCovers(n: Node, p: Path)
    requires p != [] && CleanPath(p) && Remove(n, p).1 == Failed
    ensures Covers(n, p) <==> ContainsPrefix(n, p)
  {
    CoversMeans(n, p);
    RemoveMeans(n, p);
    assert Target(p) == p;
    forall q | CoveredBy(n, p, q) ensures q <= p {
      var k: nat :| q <= Padded(p, k);
      Prefixes(q, p, Padded(p, k));
      if p <= q {
        ContainedBelowExists(n, p, q);
      }
    }
    if ContainsPrefix(n, p) {
      var q :| q <= p && ContainedAt(n, q);
      OwnPathCovers(n, p, q);
    }
  }

  lemma UncoverStart(n: Node, p: Path)
    requires !n.contained && p != [] && CleanPath(p) && forall i :: 0 <= i < |p| ==> SLASH !in p[i]
    ensures var c := UncoverRoot(n, p);
            && c <= p
            && (if ContainsPrefix(n, p) then c != [] && ShortestPrefix(n, p, c) else c == [])
            && forall q :: ContainedAt(WithoutCover(n, p), q) <==> ContainedAt(n, q) && q != c && c != []
  {
    CleanCover(n, p);
    UncoverRootMeans(n, p);
    var c := UncoverRoot(n, p);
    if ContainsPrefix(n, p) {
      var q :| ShortestPrefix(n, p, q) && CleanPath(q) && Cover(n, p, false) == Some(Join(q, SLASH));
      assert q != [];
      JoinNonEmpty(q);
      SplitJoin(q, SLASH);
      assert c == q && Target(c) == c;
      RemoveMeans(n, c);
      forall r ensures ContainedAt(WithoutCover(n, p), r) <==> ContainedAt(n, r) && r != c && c != [] {
        assert ContainedAt(WithoutCover(n, p), r) <==> Survives(n, c, r);
      }
    } else {
      assert Target(EXHAUSTED) == [];
      RemoveMeans(n, EXHAUSTED);
      forall r ensures !ContainedAt(WithoutCover(n, p), r) {
        assert ContainedAt(WithoutCover(n, p), r) <==> Survives(n, [], r);
      }
    }
  }

  /** What lifting the cover starts from: the shortest blocked path that starts p, or the root. */
  lemma UncoverBegins(root: Entry, before: Node, after: Node, p: Path)
    requires CheckedWithoutNode(root, before, after, p)
    ensures var c := UncoverRoot(before, p);
            && c <= p && CleanPath(p) && CleanPath(c) && StringPrefix(c, p)
            && (if Covers(before, p) then c != [] && ContainedAt(before, c) else c == [])
            && forall q :: ContainedAt(WithoutCover(before, p), q) <==> ContainedAt(before, q) && q != c && c != []
  {
    AtValid(root, p);
    NoNodeCovers(before, p);
    UncoverStart(before, p);
    PathPrefixIsStringPrefix(UncoverRoot(before, p), p);
  }

  /** The first entry on the way from c down to f whose string does not start p's. */
  lemma {:induction false} FirstOff(root: Entry, c: Path, p: Path, f: Path) returns (e: Path)
    requires c <= f && At(root, f).Some? && StringPrefix(c, p) && !StringPrefix(f, p)
    ensures Newly(root, c, p, e) && e <= f
    decreases |f|
  {
    assert |c| == |f| ==> c == f;
    if StringPrefix(Parent(f), p) {
      e := f;
    } else {
      AtPrefix(root, Parent(f), f);
      e := FirstOff(root, c, p, Parent(f));
    }
  }

  /** Who is left out after uncovering, in terms of the tree without the cover. */
  lemma UncoveredCovers(root: Entry, before: Node, after: Node, c: Path, p: Path, f: Path)
    requires ValidEntry(root) && InTree(root, f) && StringPrefix(c, p)
    requires Uncovered(before, after, root, c, p)
    ensures Covers(after, f) <==> (c <= f && !StringPrefix(f, p)) || Covers(before, f)
  {
    CoversMeans(before, f);
    CoversMeans(after, f);
    if c <= f && !StringPrefix(f, p) {
      var e := FirstOff(root, c, p, f);
      OwnPathCovers(after, f, e);
    } else {
      forall e, k: nat | Newly(root, c, p, e) ensures !(e <= Padded(f, k)) {
        if e <= Padded(f, k) {
          NewlyStarts(root, c, p, e, f, k);
        }
      }
      forall q ensures CoveredBy(after, f, q) <==> CoveredBy(before, f, q) {
        if exists k: nat :: q <= Padded(f, k) {
          var k: nat :| q <= Padded(f, k);
          assert forall e :: Newly(root, c, p, e) && e <= q ==> e <= Padded(f, k);
        }
      }
    }
  }

  /** A newly blocked path covers only entries off the way. */
  lemma NewlyStarts(root: Entry, c: Path, p: Path, e: Path, f: Path, k: nat)
    requires ValidEntry(root) && Newly(root, c, p, e) && e <= Padded(f, k)
    ensures c <= f && !StringPrefix(f, p)
  {
    AtValid(root, e);
    CleanStart(e, f, k);
    if StringPrefix(f, p) {
      StringPrefixTransitive(e, f, p);
    }
  }

  /**
   Checking an entry p below a blocked directory c: below c, an entry stays left out unless its string starts p's
   and no other blocked path covers it; elsewhere nothing changes.
   */
  lemma UncoverEffect(root: Entry, before: Node, after: Node, p: Path, f: Path)
    requires CheckedWithoutNode(root, before, after, p) && Covers(before, p) && InTree(root, f)
    ensures var c := UncoverRoot(before, p);
            Covers(after, f) <==>
            if c <= f && StringPrefix(f, p) then CoveredOtherwise(before, c, f) else Covers(before, f)
  {
    UncoverBegins(root, before, after, p);
    var c, nr := UncoverRoot(before, p), WithoutCover(before, p);
    UncoveredCovers(root, nr, after, c, p, f);
    CoversMeans(nr, f);
    CoversMeans(before, f);
    assert forall q :: CoveredBy(nr, f, q) <==> CoveredBy(before, f, q) && q != c;
    if c <= f {
      OwnPathCovers(before, f, c);
    } else if CoveredBy(before, f, c) {
      var k: nat :| c <= Padded(f, k);
      CleanStart(c, f, k);
    }
  }

  /** Checking an entry that was not left out and has no node of its own clears the tree and blocks the others. */
  lemma CheckedAgain(root: Entry, before: Node, after: Node, p: Path, f: Path)
    requires CheckedWithoutNode(root, before, after, p) && !Covers(before, p) && InTree(root, f)
    ensures Covers(after, f) <==> !StringPrefix(f, p)
  {
    UncoverBegins(root, before, after, p);
    UncoveredCovers(root, WithoutCover(before, p), after, [], p, f);
    CoversMeans(WithoutCover(before, p), f);
  }

  /** Only p's status changes, among the files. */
  ghost predicate ChangesOnly(root: Entry, before: Node, after: Node, p: Path) {
    forall f :: IsFile(root, f) ==> (Covers(after, f) <==> Covers(before, f) && f != p)
  }

  /** Is f another file below the cover whose string starts p's? */
  ghost predicate Lookalike(root: Entry, c: Path, p: Path, f: Path) {
    IsFile(root, f) && f != p && c <= f && StringPrefix(f, p)
  }

  /**
   Checking a covered file p brings back exactly p if and only if the cover was all that blocked p, and every other
   file below the cover whose string starts p's is blocked otherwise.
   */
  lemma ExactlyOneFile(root: Entry, before: Node, after: Node, p: Path)
    requires CheckedWithoutNode(root, before, after, p) && Covers(before, p) && IsFile(root, p)
    ensures var c := UncoverRoot(before, p);
            ChangesOnly(root, before, after, p) <==>
            && !CoveredOtherwise(before, c, p)
            && forall f :: Lookalike(root, c, p, f) ==> CoveredOtherwise(before, c, f)
  {
    var c := UncoverRoot(before, p);
    UncoverBegins(root, before, after, p);
    forall f | IsFile(root, f)
      ensures Covers(after, f) <==>
              if c <= f && StringPrefix(f, p) then CoveredOtherwise(before, c, f) else Covers(before, f)
      ensures c <= f ==> Covers(before, f)
    {
      UncoverEffect(root, before, after, p, f);
      CoverCovers(before, c, f);
    }
    PathPrefixIsStringPrefix(p, p);
  }

  lemma CoverCovers(n: Node, c: Path, f: Path)
    requires ContainedAt(n, c) && f != []
    ensures c <= f ==> Covers(n, f)
  {
    CoversMeans(n, f);
    if c <= f {
      OwnPathCovers(n, f, c);
    }
  }

  /** When no blocked path starts another, that is: no other file below the cover has a string that starts p's. */
  lemma ExactlyOneFileInAntichain(root: Entry, before: Node, after: Node, p: Path)
    requires CheckedWithoutNode(root, before, after, p) && Covers(before, p) && IsFile(root, p)
    requires Antichain(before)
    ensures ChangesOnly(root, before, after, p) <==> forall f :: !Lookalike(root, UncoverRoot(before, p), p, f)
  {
    var c := UncoverRoot(before, p);
    UncoverBegins(root, before, after, p);
    ExactlyOneFile(root, before, after, p);
    forall f | c <= f ensures !CoveredOtherwise(before, c, f) {
      forall q | CoveredBy(before, f, q) ensures q == c {
        var k: nat :| q <= Padded(f, k);
        CleanStart(c, f, k);
        Prefixes(q, c, Padded(f, k));
      }
    }
  }

  /** A directory that is checked below its cover stays empty: everything below it is blocked one by one. */
  lemma DirectoryStaysBlocked(root: Entry, before: Node, after: Node, p: Path, f: Path)
    requires CheckedWithoutNode(root, before, after, p) && Covers(before, p) && InTree(root, f) && p < f
    ensures Covers(after, f)
  {
    UncoverBegins(root, before, after, p);
    UncoverEffect(root, before, after, p, f);
    CoverCovers(before, UncoverRoot(before, p), f);
    AtValid(root, f);
    LongerString(p, f);
  }

  lemma {:induction false} LongerString(p: Path, f: Path)
    requires p < f && p != [] && CleanPath(f)
    ensures |RelPath(p)| < |RelPath(f)|
  {
    JoinCons(f[0], f[1..], SLASH);
    assert f == [f[0]] + f[1..];
    if |p| > 1 {
      JoinCons(p[0], p[1..], SLASH);
      assert p == [p[0]] + p[1..];
      LongerString(p[1..], f[1..]);
    }
  }

  // ---------- No blocked path starts another ----------

  /** Blocking keeps that exactly when no proper ancestor of p is blocked. */
  lemma BlockAntichain(n: Node, p: Path)
    requires Antichain(n) && p != []
    ensures Antichain(Insert(n, p)) <==> !ContainsAbove(n, p)
  {
    forall q ensures ContainedAt(Insert(n, p), q) <==> q == p || (ContainedAt(n, q) && !(p <= q)) {
      InsertContains(n, p, q);
    }
    assert ContainedAt(Insert(n, p), p);
    if ContainsAbove(n, p) {
      var q :| q < p && ContainedAt(n, q);
      assert ContainedAt(Insert(n, p), q);
    } else {
      forall q, r | ContainedAt(Insert(n, p), q) && ContainedAt(Insert(n, p), r) && q <= r ensures q == r {
        Prefixes(q, r, r);
      }
    }
  }

  lemma RemoveAntichain(n: Node, p: Path)
    requires Antichain(n)
    ensures Antichain(Remove(n, p).0)
  {
    RemoveMeans(n, p);
    forall q | ContainedAt(Remove(n, p).0, q) ensures ContainedAt(n, q) {
      assert Survives(n, Target(p), q);
    }
  }

  lemma UncoverAntichain(root: Entry, before: Node, after: Node, p: Path)
    requires CheckedWithoutNode(root, before, after, p) && Antichain(before)
    ensures Antichain(after)
  {
    UncoverBegins(root, before, after, p);
    var c := UncoverRoot(before, p);
    forall q, r | ContainedAt(after, q) && ContainedAt(after, r) && q <= r ensures q == r {
      Prefixes(q, c, r);
      Prefixes(c, q, r);
      if Newly(root, c, p, q) && Newly(root, c, p, r) {
        NewlyIncomparable(root, c, p, q, r);
      }
    }
  }

  // ---------- A file that comes back with another ----------

  const DIR: QString := [0x64]
  const FILE: QString := [0x61]
  const FILE_COPY: QString := [0x61, 0x62]

  /** A directory with the files "a" and "ab". */
  const LOOKALIKES: Entry :=
    Entry([], false, [Entry(DIR, false, [Entry(FILE, true, []), Entry(FILE_COPY, true, [])])])

  lemma LookalikePaths()
    ensures ValidEntry(LOOKALIKES) && IsFile(LOOKALIKES, [DIR, FILE]) && IsFile(LOOKALIKES, [DIR, FILE_COPY])
    ensures At(LOOKALIKES, [DIR]).Some? && StringPrefix([DIR, FILE], [DIR, FILE_COPY])
    ensures CleanPath([DIR, FILE]) && CleanPath([DIR, FILE_COPY])
  {
    var dir := LOOKALIKES.kids[0];
    assert Row(LOOKALIKES.kids, DIR) == 0 && Row(dir.kids, FILE) == 0;
    assert dir.kids[1..][0] == Entry(FILE_COPY, true, []);
    assert Row(dir.kids[1..], FILE_COPY) == 0 && Row(dir.kids, FILE_COPY) == 1;
    AtTwo(LOOKALIKES, DIR, FILE);
    AtTwo(LOOKALIKES, DIR, FILE_COPY);
    assert At(LOOKALIKES, [DIR]) == Some(dir);
    JoinCons(DIR, [FILE], SLASH);
    JoinCons(DIR, [FILE_COPY], SLASH);
    assert [DIR] + [FILE] == [DIR, FILE] && [DIR] + [FILE_COPY] == [DIR, FILE_COPY];
  }

  lemma AtTwo(e: Entry, a: QString, b: QString)
    requires Row(e.kids, a) < |e.kids| && Row(e.kids[Row(e.kids, a)].kids, b) < |e.kids[Row(e.kids, a)].kids|
    ensures var kid := e.kids[Row(e.kids, a)]; At(e, [a, b]) == Some(kid.kids[Row(kid.kids, b)])
  {
    var kid := e.kids[Row(e.kids, a)];
    assert [a, b][1..] == [b] && [b][1..] == [];
    assert At(kid, [b]) == At(kid.kids[Row(kid.kids, b)], []);
  }

  lemma OnlyDirectory(q: Path)
    ensures ContainedAt(Insert(EMPTY_NODE, [DIR]), q) <==> q == [DIR]
  {
    InsertContains(EMPTY_NODE, [DIR], q);
  }

  lemma DirectoryBlocked(n: Node, f: Path)
    requires n == Insert(EMPTY_NODE, [DIR]) && [DIR] <= f && CleanPath(f)
    ensures Built(n) && Covers(n, f)
    ensures f != [DIR] ==> Remove(n, f).1 == Failed
  {
    InsertBuilt(EMPTY_NODE, [DIR]);
    OnlyDirectory([DIR]);
    CoverCovers(n, [DIR], f);
    RemoveMeans(n, f);
    if f != [DIR] && ExistsAt(n, f) {
      var q := ExistingContains(n, f);
      OnlyDirectory(q);
    }
  }

  lemma LookalikeReturns(n: Node, after: Node)
    requires n == Insert(EMPTY_NODE, [DIR])
    requires var p := [DIR, FILE_COPY]; Uncovered(WithoutCover(n, p), after, LOOKALIKES, UncoverRoot(n, p), p)
    ensures !Covers(after, [DIR, FILE])
  {
    var p, f := [DIR, FILE_COPY], [DIR, FILE];
    LookalikePaths();
    AtValid(LOOKALIKES, p);
    DirectoryBlocked(n, p);
    UncoverBegins(LOOKALIKES, n, after, p);
    OnlyDirectory(UncoverRoot(n, p));
    UncoverEffect(LOOKALIKES, n, after, p, f);
    forall q | ContainedAt(n, q) ensures q == [DIR] {
      OnlyDirectory(q);
    }
  }

  /** With the directory blocked, checking "ab" in it also brings back "a". */
  method CheckingOneFile() returns (before: bool, after: bool)
    ensures before && !after
  {
    LookalikePaths();
    var proxy := new FileIgnoreProxy(LOOKALIKES);
    proxy.SetFilterState([DIR], Unchecked);
    ghost var n := proxy.blocked.node;
    DirectoryBlocked(n, [DIR, FILE]);
    DirectoryBlocked(n, [DIR, FILE_COPY]);
    before := proxy.FilterFile([DIR, FILE]);
    proxy.SetFilterState([DIR, FILE_COPY], Checked);
    LookalikeReturns(n, proxy.blocked.node);
    assert proxy.ignoreFiles == [] && proxy.ignoreFilesSuffixes == [];
    assert proxy.ignoreFilePaths.node == EMPTY_NODE;
    after := proxy.FilterFile([DIR, FILE]);
  }

  // ---------- A box that does not tell ----------

  /** A directory with the file "a". */
  const ONE_FILE: Entry := Entry([], false, [Entry(FILE, true, [])])

  /** The list with the one line "a/". */
  const SLASHED: QString := [LOWER_A, SLASH]

  lemma OneFile()
    ensures ValidEntry(ONE_FILE) && IsFile(ONE_FILE, [FILE])
  {
    assert Row(ONE_FILE.kids, FILE) == 0;
    assert At(ONE_FILE, [FILE]) == At(ONE_FILE.kids[0], [FILE][1..]);
  }

  lemma SlashedLoads(n: Node)
    requires n == InsertAll(Node(false, map[]), AllComponents(Lines(SLASHED)))
    ensures StateOf(n, [FILE]) == PartiallyChecked && Covers(n, [FILE])
  {
    SplitJoin([SLASHED], LF);
    assert Join([SLASHED], LF) == SLASHED && Split(SLASHED, LF) == [SLASHED];
    SkipEmptyKeeps([SLASHED]);
    var paths := AllComponents([SLASHED]);
    assert paths == [Components(SLASHED)] && InsertAll(EMPTY_NODE, paths) == Insert(EMPTY_NODE, paths[0]) by {
      assert paths[1..] == [];
    }
    CoverMissesCovered();
    CoverMeans(n, [FILE], false);
    CoversMeans(n, [FILE]);
    var q :| CoveredBy(n, [FILE], q);
    var k: nat :| q <= Padded([FILE], k);
    Prefixes(q, [FILE], Padded([FILE], k));
    assert [FILE] <= q;
    ContainedBelowExists(n, [FILE], q);
  }

  /** With "a/" loaded, the box of the file "a" is partially checked, but the file is left out. */
  method BoxOfSlashed() returns (state: CheckState, leftOut: bool)
    ensures state == PartiallyChecked && leftOut
  {
    OneFile();
    var proxy := new FileIgnoreProxy(ONE_FILE);
    proxy.LoadBlockedPaths(SLASHED);
    SlashedLoads(proxy.blocked.node);
    state := proxy.Data([FILE]);
    leftOut := proxy.FilterFile([FILE]);
  }
}
