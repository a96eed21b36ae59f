/**
 The check boxes of the export dialog: which files of a directory tree are left out.

 A file system model is a finite tree of entries; an index is the path of an entry below the root.
 */
module FileIgnore {
  import opened Text
  import opened Separators
  import opened PathTree
  import opened PathList
  import opened PrefixTrees

  datatype Entry = Entry(name: QString, isFile: bool, kids: seq<Entry>)

  ghost predicate ValidEntry(e: Entry) {
    && (e.isFile ==> e.kids == [])
    && (forall k :: k in e.kids ==> k.name != [] && SLASH !in k.name && ValidEntry(k))
    && (forall i, j :: 0 <= i < j < |e.kids| ==> e.kids[i].name != e.kids[j].name)
  }

  function Row(kids: seq<Entry>, name: QString): (i: nat)
    ensures i <= |kids|
    ensures i < |kids| ==> kids[i].name == name
  {
    if kids == [] || kids[0].name == name then 0 else 1 + Row(kids[1..], name)
  }

  /** The entry at a path below e. */
  function At(e: Entry, path: Path): Option<Entry> {
    if path == [] then Some(e)
    else
      var i := Row(e.kids, path[0]);
      if i < |e.kids| then At(e.kids[i], path[1..]) else None
  }

  lemma {:induction false} RowIs(kids: seq<Entry>, i: nat)
    requires i < |kids| && forall j, k :: 0 <= j < k < |kids| ==> kids[j].name != kids[k].name
    ensures Row(kids, kids[i].name) == i
  {
    if i == 0 {
    } else {
      assert kids[0].name != kids[i].name;
      RowIs(kids[1..], i - 1);
    }
  }

  lemma {:induction false} AtAppend(e: Entry, a: Path, b: Path)
    requires At(e, a).Some?
    ensures At(e, a + b) == At(At(e, a).value, b)
  {
    if a == [] {
      assert a + b == b;
    } else {
      assert (a + b)[1..] == a[1..] + b;
      AtAppend(e.kids[Row(e.kids, a[0])], a[1..], b);
    }
  }

  lemma {:induction false} AtPrefix(e: Entry, a: Path, b: Path)
    requires At(e, b).Some? && a <= b
    ensures At(e, a).Some?
  {
    if a == [] {
    } else {
      AtPrefix(e.kids[Row(e.kids, b[0])], a[1..], b[1..]);
    }
  }

  lemma {:induction false} AtValid(e: Entry, path: Path)
    requires ValidEntry(e) && At(e, path).Some?
    ensures ValidEntry(At(e, path).value) && CleanPath(path)
    ensures forall i :: 0 <= i < |path| ==> SLASH !in path[i]
  {
    if path == [] {
    } else {
      var kid := e.kids[Row(e.kids, path[0])];
      assert kid in e.kids;
      AtValid(kid, path[1..]);
    }
  }

  lemma AtChild(e: Entry, path: Path, i: nat)
    requires ValidEntry(e) && At(e, path).Some? && i < |At(e, path).value.kids|
    ensures At(e, path + [At(e, path).value.kids[i].name]) == Some(At(e, path).value.kids[i])
  {
    var d := At(e, path).value;
    AtValid(e, path);
    RowIs(d.kids, i);
    AtAppend(e, path, [d.kids[i].name]);
  }

  // ---------- Paths as strings ----------

  function RelPath(path: Path): QString {
    Join(path, SLASH)
  }

  /** The test of the source: is the string of a path a prefix of the string of p? */
  predicate StringPrefix(a: Path, p: Path) {
    RelPath(a) <= RelPath(p)
  }

  lemma {:induction false} PathPrefixIsStringPrefix(a: Path, b: Path)
    requires a <= b
    ensures StringPrefix(a, b)
  {
    if a != [] && a != b {
      JoinCons(b[0], b[1..], SLASH);
      assert b == [b[0]] + b[1..];
      if |a| > 1 {
        PathPrefixIsStringPrefix(a[1..], b[1..]);
        JoinCons(a[0], a[1..], SLASH);
        assert a == [a[0]] + a[1..];
      }
    }
  }

  lemma StringPrefixTransitive(a: Path, b: Path, p: Path)
    requires a <= b && StringPrefix(b, p)
    ensures StringPrefix(a, p)
  {
    PathPrefixIsStringPrefix(a, b);
  }

  // ---------- Uncovering ----------

  function Parent(e: Path): Path
    requires e != []
  {
    e[..|e| - 1]
  }

  /** The entries that uncovering p below c blocks: first on their way down whose string does not start p's. */
  ghost predicate Newly(root: Entry, c: Path, p: Path, e: Path) {
    c < e && At(root, e).Some? && StringPrefix(Parent(e), p) && !StringPrefix(e, p)
  }

  lemma NewlyIncomparable(root: Entry, c: Path, p: Path, e: Path, f: Path)
    requires Newly(root, c, p, e) && Newly(root, c, p, f) && e <= f
    ensures e == f
  {
    if e != f {
      StringPrefixTransitive(e, Parent(f), p);
    }
  }

  /** The contained paths after uncovering: the newly blocked ones, and the old ones not below them. */
  ghost predicate Uncovered(before: Node, after: Node, root: Entry, c: Path, p: Path) {
    forall q :: ContainedAt(after, q) <==>
                || Newly(root, c, p, q)
                || (ContainedAt(before, q) && forall e :: Newly(root, c, p, e) ==> !(e <= q))
  }

  lemma CoverOfExhausted(n: Node)
    ensures Cover(n, EXHAUSTED, true) == None || Cover(n, EXHAUSTED, true) == Some([])
    decreases n
  {}

  /** What cover() returns is always a prefix of the path asked for. */
  lemma {:induction false} CoverIsPrefix(n: Node, p: Path)
    requires p != [] && CleanPath(p) && Cover(n, p, false) != None
    ensures exists q :: q <= p && Cover(n, p, false) == Some(RelPath(q))
    decreases n
  {
    if n.contained {
      assert [] <= p && RelPath([]) == [];
    } else {
      var kid := n.kids[p[0]];
      assert p[0] == RelPath([p[0]]) && [p[0]] <= p;
      if |p| == 1 {
        CoverOfExhausted(kid);
      } else {
        CoverIsPrefix(kid, p[1..]);
        var r :| r <= p[1..] && Cover(kid, p[1..], false) == Some(RelPath(r));
        JoinNonEmpty(r);
        if r == [] {
          assert Cover(n, p, false) == Some(RelPath([p[0]]));
        } else {
          var q := [p[0]] + r;
          JoinCons(p[0], r, SLASH);
          assert q <= p && Cover(n, p, false) == Some(RelPath(q));
        }
      }
    }
  }

  /** The directory that uncovering starts from; the root when there is no cover. */
  function UncoverRoot(n: Node, p: Path): Path
    requires p != []
  {
    var cover := Cover(n, p, false);
    if cover == None || cover.value == [] then [] else Components(cover.value)
  }

  lemma UncoverRootMeans(n: Node, p: Path)
    requires p != [] && CleanPath(p) && forall i :: 0 <= i < |p| ==> SLASH !in p[i]
    ensures UncoverRoot(n, p) <= p
    ensures var cover := Cover(n, p, false);
            cover != None ==> cover.value == RelPath(UncoverRoot(n, p))
  {
    if Cover(n, p, false) != None {
      CoverIsPrefix(n, p);
      var q :| q <= p && Cover(n, p, false) == Some(RelPath(q));
      JoinNonEmpty(q);
      if q != [] {
        SplitJoin(q, SLASH);
      }
    }
  }

  /** The tree with the cover itself removed. */
  function WithoutCover(n: Node, p: Path): Node
    requires p != []
  {
    var c := UncoverRoot(n, p);
    Remove(n, if c == [] then EXHAUSTED else c).0
  }

  /** Uncovering brings in no empty components. */
  lemma UncoveredProper(root: Entry, before: Node, after: Node, p: Path)
    requires ValidEntry(root) && Proper(before) && Built(after) && p != []
    requires Uncovered(WithoutCover(before, p), after, root, UncoverRoot(before, p), p)
    ensures Proper(after)
  {
    var c := UncoverRoot(before, p);
    RemoveProper(before, if c == [] then EXHAUSTED else c);
    CleanContains(WithoutCover(before, p));
    forall q | ContainedAt(after, q) ensures CleanPath(q) {
      if Newly(root, c, p, q) {
        AtValid(root, q);
      }
    }
    CleanContains(after);
  }

  // ---------- The saved list ----------

  /** The parts that are not empty. */
  function SkipEmpty(parts: seq<QString>): seq<QString> {
    if parts == [] then [] else (if parts[0] == [] then [] else [parts[0]]) + SkipEmpty(parts[1..])
  }

  function Lines(text: QString): seq<QString> {
    SkipEmpty(Split(text, LF))
  }

  ghost function SavedText(n: Node): QString {
    Join(Strings(ListOf(n)), LF)
  }

  /** Every contained path is a non-empty string of one line. */
  ghost predicate OneLinePaths(n: Node) {
    forall q :: q != [] && ContainedAt(n, q) ==> RelPath(q) != [] && LF !in RelPath(q)
  }

  /** The keys of the tree are components, as insertion makes them. */
  ghost predicate SlashFree(n: Node) {
    forall q :: ContainedAt(n, q) ==> forall i :: 0 <= i < |q| ==> SLASH !in q[i]
  }

  lemma {:induction false} SkipEmptyMeans(parts: seq<QString>)
    ensures forall x :: x in SkipEmpty(parts) <==> x in parts && x != []
  {
    if parts == [] {
    } else {
      SkipEmptyMeans(parts[1..]);
      assert parts == [parts[0]] + parts[1..];
    }
  }

  /** The lines of a text, in order, without the empty ones. */
  lemma LinesMean(line: QString, rest: QString)
    requires LF !in line
    ensures Lines(line + [LF] + rest) == (if line == [] then [] else [line]) + Lines(rest)
    ensures Lines(line) == if line == [] then [] else [line]
  {
    FirstSeparator(line, LF, rest);
    assert Split(line + [LF] + rest, LF) == [line] + Split(rest, LF);
    IndexOfMeans(line, LF);
    assert IndexOf(line, LF) == -1;
    var one := Split(line, LF);
    assert one == [line] && one[1..] == [] && SkipEmpty(one[1..]) == [];
    assert SkipEmpty(one) == if line == [] then [] else [line];
  }

  lemma {:induction false} SkipEmptyKeeps(parts: seq<QString>)
    requires forall i :: 0 <= i < |parts| ==> parts[i] != []
    ensures SkipEmpty(parts) == parts
  {
    if parts == [] {
    } else {
      SkipEmptyKeeps(parts[1..]);
      assert parts == [parts[0]] + parts[1..];
    }
  }

  /** Lines survive being joined and read back exactly when they are non-empty and hold no line break. */
  lemma LinesOfJoined(strings: seq<QString>)
    ensures Lines(Join(strings, LF)) == strings <==>
            forall i :: 0 <= i < |strings| ==> strings[i] != [] && LF !in strings[i]
  {
    var text := Join(strings, LF);
    if Lines(text) == strings {
      SkipEmptyMeans(Split(text, LF));
      forall i | 0 <= i < |strings| ensures strings[i] != [] && LF !in strings[i] {
        assert strings[i] in strings;
        var k :| 0 <= k < |Split(text, LF)| && Split(text, LF)[k] == strings[i];
        SplitHasNoSeparator(text, LF, k);
      }
    }
    if forall i :: 0 <= i < |strings| ==> strings[i] != [] && LF !in strings[i] {
      if strings == [] {
        assert Split([], LF) == [[]] && SkipEmpty([[]]) == [];
      } else {
        SplitJoin(strings, LF);
        SkipEmptyKeeps(strings);
      }
    }
  }

  lemma OneLineStrings(n: Node)
    ensures OneLinePaths(n) <==> forall i :: 0 <= i < |Strings(ListOf(n))| ==>
                                   Strings(ListOf(n))[i] != [] && LF !in Strings(ListOf(n))[i]
  {
    ListMeans(n);
    var paths := ListOf(n);
    if forall i :: 0 <= i < |paths| ==> Strings(paths)[i] != [] && LF !in Strings(paths)[i] {
      forall q | q != [] && ContainedAt(n, q) ensures RelPath(q) != [] && LF !in RelPath(q) {
        var i :| 0 <= i < |paths| && paths[i] == q;
        assert Strings(paths)[i] == RelPath(q);
      }
    }
    if OneLinePaths(n) {
      forall i | 0 <= i < |paths| ensures Strings(paths)[i] != [] && LF !in Strings(paths)[i] {
        assert paths[i] in paths;
      }
    }
  }

  /**
   The saved list survives being loaded if and only if every blocked path is a non-empty string of one line; then
   loading rebuilds the tree from its own list.
   */
  lemma LoadOfSave(n: Node)
    ensures Lines(SavedText(n)) == Strings(ListOf(n)) <==> OneLinePaths(n)
    ensures OneLinePaths(n) && SlashFree(n) ==> InsertAll(EMPTY_NODE, AllComponents(Lines(SavedText(n)))) == Reload(n)
  {
    LinesOfJoined(Strings(ListOf(n)));
    OneLineStrings(n);
    if SlashFree(n) {
      ListMeans(n);
      var paths := ListOf(n);
      forall i | 0 <= i < |paths| ensures Components(Strings(paths)[i]) == paths[i] {
        assert paths[i] in paths;
        SplitJoin(paths[i], SLASH);
      }
      assert AllComponents(Strings(paths)) == paths;
    }
  }

  /** A loaded tree has no empty components if and only if every line that has one is dropped again. */
  lemma LoadedProper(text: QString)
    ensures var paths := AllComponents(Lines(text));
            && Built(InsertAll(EMPTY_NODE, paths))
            && (Proper(InsertAll(EMPTY_NODE, paths)) <==> UncleanDropped(paths))
  {
    BuiltFromList(AllComponents(Lines(text)));
  }

  // ---------- The traversal's measure ----------

  function Size(e: Entry): nat {
    1 + SizeAll(e.kids)
  }

  function SizeAll(es: seq<Entry>): nat {
    if es == [] then 0 else Size(es[0]) + SizeAll(es[1..])
  }

  /** An index of the file system model: where an entry is, and the entry. */
  datatype Index = Index(path: Path, entry: Entry)

  function TodoWork(todo: seq<Index>): nat {
    if todo == [] then 0 else 2 * SizeAll(todo[|todo| - 1].entry.kids) + 1 + TodoWork(todo[..|todo| - 1])
  }

  // ---------- The proxy ----------

  datatype CheckState = Unchecked | PartiallyChecked | Checked

  ghost predicate Placed(root: Entry, x: Index) {
    At(root, x.path) == Some(x.entry)
  }

  /** Is e still ahead of the traversal: below an index put aside, or in a row not yet reached? */
  ghost predicate Ahead(todo: seq<Index>, doing: Index, row: nat, e: Path) {
    || (exists i :: 0 <= i < |todo| && todo[i].path < e)
    || (doing.path < e && row <= Row(doing.entry.kids, e[|doing.path|]))
  }

  function StateOf(n: Node, path: Path): CheckState
    requires path != []
  {
    if Cover(n, path, false) != None then Unchecked
    else if ExistsAt(n, path) then PartiallyChecked
    else Checked
  }

  predicate EndsWith(s: QString, suffix: QString) {
    |suffix| <= |s| && s[|s| - |suffix|..] == suffix
  }

  /** Is the file hidden by its name, by an ending of its name, or by its path? */
  predicate Ignored(names: seq<QString>, suffixes: seq<QString>, paths: Node, path: Path)
    requires path != []
  {
    var fileName := path[|path| - 1];
    || fileName in names
    || (exists i :: 0 <= i < |suffixes| && EndsWith(fileName, suffixes[i]))
    || Covers(paths, path)
  }

  /** A file is ignored by its whole name, by an ending of its name, or by a blocked path that starts its path. */
  lemma IgnoredMeans(names: seq<QString>, suffixes: seq<QString>, paths: Node, dir: Path, name: QString)
    ensures Ignored(names, suffixes, paths, dir + [name]) <==>
            || name in names
            || (exists i, stem :: 0 <= i < |suffixes| && name == stem + suffixes[i])
            || (exists q :: CoveredBy(paths, dir + [name], q))
  {
    CoversMeans(paths, dir + [name]);
    forall i | 0 <= i < |suffixes| ensures EndsWith(name, suffixes[i]) <==> exists stem :: name == stem + suffixes[i] {
      EndsWithMeans(name, suffixes[i]);
    }
  }

  lemma EndsWithMeans(s: QString, suffix: QString)
    ensures EndsWith(s, suffix) <==> exists stem :: s == stem + suffix
  {
    if EndsWith(s, suffix) {
      assert s == s[..|s| - |suffix|] + suffix;
    }
    if stem :| s == stem + suffix {
      assert s[|s| - |suffix|..] == suffix;
    }
  }

  class FileIgnoreProxy {
    const root: Entry
    const blocked: PrefixTree
    var ignoreFiles: seq<QString>
    var ignoreFilesSuffixes: seq<QString>
    const ignoreFilePaths: PrefixTree

    constructor (root: Entry)
      ensures this.root == root && blocked.Valid() && fresh(blocked.Repr) && blocked.node == EMPTY_NODE
      ensures ignoreFiles == [] && ignoreFilesSuffixes == []
      ensures ignoreFilePaths.Valid() && fresh(ignoreFilePaths.Repr) && ignoreFilePaths.node == EMPTY_NODE
      ensures blocked.Repr !! ignoreFilePaths.Repr && this !in blocked.Repr && this !in ignoreFilePaths.Repr
    {
      this.root := root;
      blocked := new PrefixTree(false);
      ignoreFiles, ignoreFilesSuffixes := [], [];
      ignoreFilePaths := new PrefixTree(false);
    }

    /** The check box shown for an entry. */
    method Data(path: Path) returns (state: CheckState)
      requires blocked.Valid() && ValidEntry(root) && path != [] && At(root, path).Some?
      ensures state == StateOf(blocked.node, path)
    {
      AtValid(root, path);
      SplitJoin(path, SLASH);
      var cover := blocked.Cover(RelPath(path), false);
      if cover != None {
        return Unchecked;
      }
      var exists' := blocked.Exists(RelPath(path));
      state := if exists' then PartiallyChecked else Checked;
    }

    method IgnoreFile(path: Path) returns (r: bool)
      requires ignoreFilePaths.Valid() && ValidEntry(root) && path != [] && At(root, path).Some?
      ensures r == Ignored(ignoreFiles, ignoreFilesSuffixes, ignoreFilePaths.node, path)
    {
      AtValid(root, path);
      SplitJoin(path, SLASH);
      var fileName := path[|path| - 1];
      if fileName in ignoreFiles {
        return true;
      }
      var ends := HasIgnoredSuffix(fileName);
      if ends {
        return true;
      }
      r := ignoreFilePaths.Covers(RelPath(path));
    }

    method HasIgnoredSuffix(fileName: QString) returns (r: bool)
      ensures r <==> exists i :: 0 <= i < |ignoreFilesSuffixes| && EndsWith(fileName, ignoreFilesSuffixes[i])
    {
      for i := 0 to |ignoreFilesSuffixes|
        invariant forall j :: 0 <= j < i ==> !EndsWith(fileName, ignoreFilesSuffixes[j])
      {
        if EndsWith(fileName, ignoreFilesSuffixes[i]) {
          return true;
        }
      }
      r := false;
    }

    /** Is the file left out, because it is blocked or because it is ignored? */
    method FilterFile(path: Path) returns (r: bool)
      requires blocked.Valid() && ignoreFilePaths.Valid() && ValidEntry(root) && path != [] && At(root, path).Some?
      ensures r <==> Covers(blocked.node, path) || Ignored(ignoreFiles, ignoreFilesSuffixes, ignoreFilePaths.node, path)
    {
      AtValid(root, path);
      SplitJoin(path, SLASH);
      r := blocked.Covers(RelPath(path));
      if !r {
        r := IgnoreFile(path);
      }
    }

    method SetBlockedPaths(paths: seq<QString>)
      requires blocked.Valid()
      modifies blocked.Repr
      ensures blocked.Valid() && fresh(blocked.Repr - old(blocked.Repr))
      ensures blocked.node == InsertAll(Node(old(blocked.node).contained, map[]), AllComponents(paths))
      ensures !old(blocked.node).contained ==> Built(blocked.node)
    {
      InsertAllTrim(Node(blocked.node.contained, map[]), AllComponents(paths));
      blocked.Clear();
      blocked.InsertPaths(paths);
    }

    /** The text is the decoded content of the file. */
    method LoadBlockedPaths(text: QString)
      requires blocked.Valid()
      modifies blocked.Repr
      ensures blocked.Valid() && fresh(blocked.Repr - old(blocked.Repr))
      ensures blocked.node == InsertAll(Node(old(blocked.node).contained, map[]), AllComponents(Lines(text)))
      ensures !old(blocked.node).contained ==> Built(blocked.node)
    {
      SetBlockedPaths(Lines(text));
    }

    method SaveBlockedPaths() returns (text: QString)
      requires blocked.Valid()
      ensures text == SavedText(blocked.node)
    {
      var list := blocked.ToStringList();
      text := Join(list, LF);
    }

    method SetFilterState(p: Path, state: CheckState)
      requires blocked.Valid() && ValidEntry(root) && p != [] && At(root, p).Some?
      modifies blocked.Repr
      ensures blocked.Valid() && fresh(blocked.Repr - old(blocked.Repr))
      ensures old(Built(blocked.node)) ==> Built(blocked.node)
      ensures old(Proper(blocked.node)) ==> Proper(blocked.node)
      ensures state == Unchecked ==> blocked.node == Insert(old(blocked.node), p)
      ensures state != Unchecked && Remove(old(blocked.node), p).1 != Failed ==>
              blocked.node == Remove(old(blocked.node), p).0
      ensures state != Unchecked && Remove(old(blocked.node), p).1 == Failed ==>
              Uncovered(WithoutCover(old(blocked.node), p), blocked.node, root, UncoverRoot(old(blocked.node), p), p)
    {
      AtValid(root, p);
      SplitJoin(p, SLASH);
      var blockedPath := RelPath(p);
      if state == Unchecked {
        if Built(blocked.node) {
          InsertBuilt(blocked.node, p);
        }
        if Proper(blocked.node) {
          InsertProper(blocked.node, p);
        }
        var leaf := blocked.Insert(blockedPath);
        label inserted:
        leaf.Clear();
        assert leaf.node == old@inserted(leaf.node);
        assert leaf.children == old@inserted(leaf.children);
        assert unchanged@inserted(leaf);
      } else {
        if Built(blocked.node) {
          RemoveBuilt(blocked.node, p);
        }
        if Proper(blocked.node) {
          RemoveProper(blocked.node, p);
        }
        var removed := blocked.Remove(blockedPath);
        RemoveMeans(old(blocked.node), p);
        if !removed {
          Uncover(p);
          if old(Proper(blocked.node)) {
            UncoveredProper(root, old(blocked.node), blocked.node, p);
          }
        }
      }
    }

    /** Lifts the block from the cover of p and blocks what is below it instead, except on the way to p. */
    method Uncover(p: Path)
      requires blocked.Valid() && ValidEntry(root) && p != [] && At(root, p).Some?
      modifies blocked.Repr
      ensures blocked.Valid() && fresh(blocked.Repr - old(blocked.Repr))
      ensures old(Built(blocked.node)) ==> Built(blocked.node)
      ensures Uncovered(WithoutCover(old(blocked.node), p), blocked.node, root, UncoverRoot(old(blocked.node), p), p)
    {
      AtValid(root, p);
      SplitJoin(p, SLASH);
      var blockedPath := RelPath(p);
      var cover := blocked.Cover(blockedPath, false);
      var coverString := if cover == None then [] else cover.value;
      UncoverRootMeans(blocked.node, p);
      var c := if coverString == [] then [] else Components(coverString);
      assert c == UncoverRoot(blocked.node, p);
      if Built(blocked.node) {
        RemoveBuilt(blocked.node, Components(coverString));
      }
      var _ := blocked.Remove(coverString);
      AtPrefix(root, c, p);
      BlockContents(p, Index(c, At(root, c).value));
    }

    method Block(node: Index)
      requires blocked.Valid() && ValidEntry(root) && Placed(root, node) && node.path != []
      modifies blocked.Repr
      ensures blocked.Valid() && fresh(blocked.Repr - old(blocked.Repr))
      ensures blocked.node == Insert(old(blocked.node), node.path)
      ensures old(Built(blocked.node)) ==> Built(blocked.node)
    {
      AtValid(root, node.path);
      SplitJoin(node.path, SLASH);
      if Built(blocked.node) {
        InsertBuilt(blocked.node, node.path);
      }
      var _ := blocked.Insert(RelPath(node.path));
    }

    method BlockContents(p: Path, start: Index)
      requires blocked.Valid() && ValidEntry(root) && Placed(root, start) && start.path <= p
      modifies blocked.Repr
      ensures blocked.Valid() && fresh(blocked.Repr - old(blocked.Repr))
      ensures old(Built(blocked.node)) ==> Built(blocked.node)
      ensures Uncovered(old(blocked.node), blocked.node, root, start.path, p)
    {
      var blockedPath := RelPath(p);
      var doing, row := start, 0;
      var todo: seq<Index> := [];
      ghost var ins: set<Path> := {};
      PathPrefixIsStringPrefix(start.path, p);
      while true
        invariant blocked.Valid() && fresh(blocked.Repr - old(blocked.Repr))
        invariant row <= |doing.entry.kids|
        invariant Traversal(root, start.path, p, todo, doing, row, ins)
        invariant old(Built(blocked.node)) ==> Built(blocked.node)
        invariant Replaced(old(blocked.node), blocked.node, ins)
        decreases TodoWork(todo) + 2 * SizeAll(doing.entry.kids[row..])
      {
        if row >= |doing.entry.kids| {
          if |todo| == 0 {
            break;
          }
          TraversalPop(root, start.path, p, todo, doing, row, ins);
          doing, todo, row := todo[|todo| - 1], todo[..|todo| - 1], 0;
          continue;
        }
        var entry := doing.entry.kids[row];
        var node := Index(doing.path + [entry.name], entry);
        AtChild(root, doing.path, row);
        TraversalRow(root, start.path, p, todo, doing, row, ins, node);
        SizeStep(doing.entry.kids, row);
        if RelPath(node.path) <= blockedPath {
          TodoPush(todo, node);
          todo := todo + [node];
        } else {
          ReplacedStep(root, start.path, p, old(blocked.node), blocked.node, ins, node.path);
          Block(node);
          ins := ins + {node.path};
        }
        row := row + 1;
      }
      TraversalDone(root, start.path, p, doing, row, ins, old(blocked.node), blocked.node);
    }
  }

  /** A placed index at or below the start whose own string starts p's. */
  ghost predicate OnTheWay(root: Entry, c: Path, p: Path, x: Index) {
    Placed(root, x) && c <= x.path && StringPrefix(x.path, p)
  }

  /** The contained paths after inserting the paths of ins, none of which starts another. */
  ghost predicate Replaced(before: Node, after: Node, ins: set<Path>) {
    forall q :: ContainedAt(after, q) <==> q in ins || StaysBeside(before, ins, q)
  }

  ghost predicate StaysBeside(before: Node, ins: set<Path>, q: Path) {
    ContainedAt(before, q) && forall e :: e in ins ==> !(e <= q)
  }

  lemma ReplacedStep(root: Entry, c: Path, p: Path, before: Node, after: Node, ins: set<Path>, e: Path)
    requires Replaced(before, after, ins) && Newly(root, c, p, e)
    requires forall f :: f in ins ==> Newly(root, c, p, f)
    ensures Replaced(before, Insert(after, e), ins + {e})
  {
    forall q ensures ContainedAt(Insert(after, e), q) <==> q in ins + {e} || StaysBeside(before, ins + {e}, q) {
      InsertContains(after, e, q);
      if q in ins && e <= q {
        NewlyIncomparable(root, c, p, e, q);
      }
      assert ContainedAt(after, q) <==> q in ins || StaysBeside(before, ins, q);
      assert StaysBeside(before, ins + {e}, q) <==> StaysBeside(before, ins, q) && !(e <= q);
    }
  }

  /** Below an index whose string starts p's, the row of an entry decides what is ahead. */
  lemma NewlyBelow(root: Entry, c: Path, p: Path, x: Index, e: Path)
    requires OnTheWay(root, c, p, x) && ValidEntry(root) && At(root, e).Some? && x.path < e
    ensures Row(x.entry.kids, e[|x.path|]) < |x.entry.kids|
  {
    assert e == x.path + e[|x.path|..];
    AtAppend(root, x.path, e[|x.path|..]);
  }

  /** Every newly blocked entry is in ins or still ahead. */
  ghost predicate Traversal(root: Entry, c: Path, p: Path, todo: seq<Index>, doing: Index, row: nat, ins: set<Path>) {
    && OnTheWay(root, c, p, doing)
    && (forall i :: 0 <= i < |todo| ==> OnTheWay(root, c, p, todo[i]))
    && (forall e :: e in ins ==> Newly(root, c, p, e))
    && (forall e :: Newly(root, c, p, e) ==> e in ins || Ahead(todo, doing, row, e))
  }

  lemma TraversalDone(root: Entry, c: Path, p: Path, doing: Index, row: nat, ins: set<Path>, before: Node, after: Node)
    requires Traversal(root, c, p, [], doing, row, ins) && ValidEntry(root) && row >= |doing.entry.kids|
    requires Replaced(before, after, ins)
    ensures Uncovered(before, after, root, c, p)
  {
    forall e ensures Newly(root, c, p, e) <==> e in ins {
      if Newly(root, c, p, e) && doing.path < e {
        NewlyBelow(root, c, p, doing, e);
      }
    }
  }

  lemma TraversalPop(root: Entry, c: Path, p: Path, todo: seq<Index>, doing: Index, row: nat, ins: set<Path>)
    requires Traversal(root, c, p, todo, doing, row, ins) && ValidEntry(root)
    requires row >= |doing.entry.kids| && todo != []
    ensures Traversal(root, c, p, todo[..|todo| - 1], todo[|todo| - 1], 0, ins)
  {
    forall e | Newly(root, c, p, e) && e !in ins ensures Ahead(todo[..|todo| - 1], todo[|todo| - 1], 0, e) {
      AheadPop(root, c, p, todo, doing, row, e);
    }
  }

  lemma AheadPop(root: Entry, c: Path, p: Path, todo: seq<Index>, doing: Index, row: nat, e: Path)
    requires OnTheWay(root, c, p, doing) && ValidEntry(root) && row >= |doing.entry.kids| && todo != []
    requires Newly(root, c, p, e) && Ahead(todo, doing, row, e)
    ensures Ahead(todo[..|todo| - 1], todo[|todo| - 1], 0, e)
  {
    var last := |todo| - 1;
    if doing.path < e {
      NewlyBelow(root, c, p, doing, e);
    }
    var i :| 0 <= i < |todo| && todo[i].path < e;
    assert i < last ==> todo[..last][i].path < e;
  }

  /** Passing one row: a directory on the way to p is put aside, any other entry is newly blocked. */
  lemma TraversalRow(root: Entry, c: Path, p: Path, todo: seq<Index>, doing: Index, row: nat, ins: set<Path>,
                     node: Index)
    requires Traversal(root, c, p, todo, doing, row, ins) && ValidEntry(root) && row < |doing.entry.kids|
    requires node == Index(doing.path + [doing.entry.kids[row].name], doing.entry.kids[row]) && Placed(root, node)
    ensures StringPrefix(node.path, p) ==> Traversal(root, c, p, todo + [node], doing, row + 1, ins)
    ensures !StringPrefix(node.path, p) ==>
            Newly(root, c, p, node.path) && Traversal(root, c, p, todo, doing, row + 1, ins + {node.path})
  {
    assert Parent(node.path) == doing.path;
    var onTheWay := StringPrefix(node.path, p);
    var todo' := if onTheWay then todo + [node] else todo;
    var ins' := if onTheWay then ins else ins + {node.path};
    forall e | Newly(root, c, p, e) ensures e in ins' || Ahead(todo', doing, row + 1, e) {
      if e !in ins' {
        AheadRow(root, c, p, todo, doing, row, node, e);
      }
    }
  }

  lemma AheadRow(root: Entry, c: Path, p: Path, todo: seq<Index>, doing: Index, row: nat, node: Index, e: Path)
    requires OnTheWay(root, c, p, doing) && ValidEntry(root) && row < |doing.entry.kids|
    requires node == Index(doing.path + [doing.entry.kids[row].name], doing.entry.kids[row])
    requires Newly(root, c, p, e) && Ahead(todo, doing, row, e) && (e == node.path ==> StringPrefix(node.path, p))
    ensures Ahead(if StringPrefix(node.path, p) then todo + [node] else todo, doing, row + 1, e)
  {
    if i: int :| 0 <= i < |todo| && todo[i].path < e {
      assert (todo + [node])[i].path < e;
    } else if row == Row(doing.entry.kids, e[|doing.path|]) {
      NewlyBelow(root, c, p, doing, e);
      assert e != node.path;
      assert e == node.path + e[|doing.path| + 1..];
      assert node.path <= Parent(e);
      StringPrefixTransitive(node.path, Parent(e), p);
      assert (todo + [node])[|todo|].path < e;
    }
  }

  lemma SizeStep(es: seq<Entry>, row: nat)
    requires row < |es|
    ensures SizeAll(es[row..]) == 1 + SizeAll(es[row].kids) + SizeAll(es[row + 1..])
  {}

  lemma TodoPush(todo: seq<Index>, node: Index)
    ensures TodoWork(todo + [node]) == TodoWork(todo) + 2 * SizeAll(node.entry.kids) + 1
  {}
}
