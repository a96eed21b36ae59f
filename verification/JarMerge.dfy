/**
 Building the modded game jar from the original jar and a list of jar mods. Archives are sequences of named files.
 */
module JarMerge {
  import opened Text

  type Bytes = seq<int>

  datatype File = File(name: QString, data: Bytes)

  /** None is an archive that cannot be read. */
  type Archive = Option<seq<File>>

  datatype Kind = Zip(archive: Archive) | Single(file: File) | Unknown

  datatype Mod = Mod(enabled: bool, kind: Kind)

  type Filter = QString -> bool

  /** Which files the writer of the new jar can add. */
  type Writer = File -> bool

  const META_INF: QString := [0x4D, 0x45, 0x54, 0x41, 0x2D, 0x49, 0x4E, 0x46]

  predicate OccursAt(s: QString, part: QString, i: nat) {
    i + |part| <= |s| && s[i..i + |part|] == part
  }

  predicate Contains(s: QString, part: QString) {
    exists i: nat :: i <= |s| && OccursAt(s, part, i)
  }

  function NotMeta(): Filter {
    (name: QString) => !Contains(name, META_INF)
  }

  function Everything(): Filter {
    (name: QString) => true
  }

  // ---------- Archives as maps ----------

  /** The names of an archive with their data; the first file of a name counts. */
  function AsMap(files: seq<File>): map<QString, Bytes> {
    if files == [] then map[]
    else
      var init, last := AsMap(files[..|files| - 1]), files[|files| - 1];
      if last.name in init then init else init[last.name := last.data]
  }

  function Filtered(m: map<QString, Bytes>, keep: Filter): map<QString, Bytes> {
    map name | name in m && keep(name) :: m[name]
  }

  ghost predicate UniqueNames(files: seq<File>) {
    forall i, j :: 0 <= i < j < |files| ==> files[i].name != files[j].name
  }

  /** What a mod contributes. */
  function ModMap(m: Mod): map<QString, Bytes> {
    if m.enabled && m.kind.Zip? && m.kind.archive.Some? then AsMap(m.kind.archive.value)
    else if m.enabled && m.kind.Single? then map[m.kind.file.name := m.kind.file.data]
    else map[]
  }

  /** Loading the mods one after the other, each overriding what is there. */
  function Override(mods: seq<Mod>): map<QString, Bytes> {
    if mods == [] then map[] else Override(mods[..|mods| - 1]) + ModMap(mods[|mods| - 1])
  }

  /** The jar a launch needs: the mods over the original jar, whose signature files are dropped. */
  function JarMap(source: seq<File>, mods: seq<Mod>): map<QString, Bytes> {
    Filtered(AsMap(source), NotMeta()) + Override(mods)
  }

  predicate Usable(m: Mod) {
    !m.enabled || (m.kind.Zip? && m.kind.archive.Some?) || m.kind.Single?
  }

  predicate IsSingle(m: Mod) {
    m.enabled && m.kind.Single?
  }

  /** Single files are added without a look at what is there: does a later mod have the file, too? */
  predicate Clash(mods: seq<Mod>, i: nat, j: nat)
    requires i < j < |mods|
  {
    IsSingle(mods[i]) && mods[i].kind.file.name in ModMap(mods[j])
  }

  ghost predicate NoClash(mods: seq<Mod>) {
    forall i, j :: 0 <= i < j < |mods| ==> !Clash(mods, i, j)
  }

  ghost predicate AllUsable(mods: seq<Mod>) {
    forall i :: 0 <= i < |mods| ==> Usable(mods[i])
  }

  /** Can all that the mods contribute be written, and every single file, whether or not a later mod overrides it? */
  ghost predicate ModsWritten(mods: seq<Mod>, writes: Writer) {
    && MapWritten(Override(mods), writes)
    && forall i :: 0 <= i < |mods| && IsSingle(mods[i]) ==> writes(mods[i].kind.file)
  }

  ghost predicate AllWritten(source: seq<File>, mods: seq<Mod>, writes: Writer) {
    ModsWritten(mods, writes) && MapWritten(JarMap(source, mods), writes)
  }

  ghost predicate MapWritten(m: map<QString, Bytes>, writes: Writer) {
    forall name :: name in m ==> writes(File(name, m[name]))
  }

  // ---------- How the maps grow ----------

  lemma AsMapSnoc(files: seq<File>, f: File)
    ensures AsMap(files + [f]) == if f.name in AsMap(files) then AsMap(files) else AsMap(files)[f.name := f.data]
  {}

  lemma {:induction false} NameInMap(files: seq<File>, i: nat)
    requires i < |files|
    ensures files[i].name in AsMap(files)
  {
    var n := |files| - 1;
    if i < n {
      NameInMap(files[..n], i);
    }
  }

  /** The first file of a name stays the one that counts. */
  lemma {:induction false} FirstCounts(files: seq<File>, k: nat)
    requires k < |files| && files[k].name !in AsMap(files[..k])
    ensures files[k].name in AsMap(files) && AsMap(files)[files[k].name] == files[k].data
    decreases |files|
  {
    var n := |files| - 1;
    if k < n {
      assert files[..n][..k] == files[..k];
      FirstCounts(files[..n], k);
    }
  }

  lemma {:induction false} MapNames(files: seq<File>, name: QString)
    ensures name in AsMap(files) <==> exists i :: 0 <= i < |files| && files[i].name == name
  {
    if files == [] {
    } else {
      var n := |files| - 1;
      MapNames(files[..n], name);
      forall i | 0 <= i < |files| && files[i].name == name ensures name in AsMap(files) {
        NameInMap(files, i);
      }
    }
  }

  /** Adding a file keeps the names apart exactly when its name is new. */
  lemma UniqueSnoc(files: seq<File>, f: File)
    ensures UniqueNames(files + [f]) <==> UniqueNames(files) && f.name !in AsMap(files)
  {
    var all := files + [f];
    MapNames(files, f.name);
    if UniqueNames(all) {
      forall i, j | 0 <= i < j < |files| ensures files[i].name != files[j].name {
        assert all[i].name != all[j].name;
      }
      forall i | 0 <= i < |files| ensures files[i].name != f.name {
        assert all[i].name != all[|files|].name;
      }
    }
  }

  /** A filter that drops f, or an older f, leaves the filtered map as it is. */
  lemma FilterSnoc(files: seq<File>, f: File, keep: Filter)
    ensures Filtered(AsMap(files + [f]), keep)
         == if keep(f.name) && f.name !in AsMap(files) then Filtered(AsMap(files), keep)[f.name := f.data]
            else Filtered(AsMap(files), keep)
  {}

  /** What is there already wins over a new entry below it. */
  lemma AddBelow(m: map<QString, Bytes>, top: map<QString, Bytes>, name: QString, data: Bytes)
    ensures m[name := data] + top == if name in top then m + top else (m + top)[name := data]
  {}

  lemma OverAssociative(a: map<QString, Bytes>, b: map<QString, Bytes>, c: map<QString, Bytes>)
    ensures (a + b) + c == a + (b + c)
  {}

  // ---------- Merging ----------

  /** What there is once the given files were put below `into`. */
  ghost predicate MergedInto(into: seq<File>, from: seq<File>, keep: Filter, out: seq<File>) {
    && AsMap(out) == Filtered(AsMap(from), keep) + AsMap(into)
    && (UniqueNames(out) <==> UniqueNames(into))
  }

  /** The files that merging adds. */
  function Added(into: seq<File>, from: seq<File>, keep: Filter): map<QString, Bytes> {
    Filtered(AsMap(from), keep) - AsMap(into).Keys
  }

  /** Appends the files that the filter keeps and that are not contained yet; fails if one of them cannot be written. */
  method MergeZipFiles(into: seq<File>, from: Archive, contained: set<QString>, keep: Filter, writes: Writer)
    returns (ok: bool, out: seq<File>, contained': set<QString>)
    requires contained == AsMap(into).Keys
    ensures ok <==> from.Some? && MapWritten(Added(into, from.value, keep), writes)
    ensures ok ==> MergedInto(into, from.value, keep, out) && contained' == AsMap(out).Keys && into <= out
  {
    out, contained' := into, contained;
    if from == None {
      return false, out, contained';
    }
    var files := from.value;
    assert files[..0] == [];
    for i := 0 to |files|
      invariant MergedInto(into, files[..i], keep, out) && contained' == AsMap(out).Keys && into <= out
      invariant MapWritten(Added(into, files[..i], keep), writes)
    {
      var f := files[i];
      assert files[..i + 1] == files[..i] + [f];
      MergeStep(into, files[..i], f, keep, out);
      if !keep(f.name) {
        continue;
      }
      if f.name in contained' {
        continue;
      }
      AsMapSnoc(out, f);
      contained' := contained' + {f.name};
      if !writes(f) {
        NotAdded(into, files, i, keep, writes);
        return false, out, contained';
      }
      out := out + [f];
    }
    assert files[..|files|] == files;
    ok := true;
  }

  /** A file that merging would add, but that cannot be written. */
  lemma NotAdded(into: seq<File>, files: seq<File>, i: nat, keep: Filter, writes: Writer)
    requires i < |files| && keep(files[i].name) && !writes(files[i])
    requires files[i].name !in AsMap(files[..i]) && files[i].name !in AsMap(into)
    ensures !MapWritten(Added(into, files, keep), writes)
  {
    FirstCounts(files, i);
    assert files[i].name in Added(into, files, keep);
  }

  /** One more file put below what is there. */
  lemma MergeStep(into: seq<File>, before: seq<File>, f: File, keep: Filter, out: seq<File>)
    requires MergedInto(into, before, keep, out)
    ensures if keep(f.name) && f.name !in AsMap(out)
            then MergedInto(into, before + [f], keep, out + [f]) && f.name !in AsMap(before) && f.name !in AsMap(into)
            else MergedInto(into, before + [f], keep, out)
    ensures Added(into, before + [f], keep) ==
            if keep(f.name) && f.name !in AsMap(out) then Added(into, before, keep)[f.name := f.data]
            else Added(into, before, keep)
  {
    FilterSnoc(before, f, keep);
    AddBelow(Filtered(AsMap(before), keep), AsMap(into), f.name, f.data);
    AsMapSnoc(out, f);
    UniqueSnoc(out, f);
    AddedStep(Filtered(AsMap(before), keep), AsMap(into).Keys, f.name, f.data);
  }

  lemma AddedStep(m: map<QString, Bytes>, there: set<QString>, name: QString, data: Bytes)
    ensures m[name := data] - there == if name in there then m - there else (m - there)[name := data]
  {}

  /** Does a mod from i on have the file? */
  predicate HasFrom(mods: seq<Mod>, i: nat, name: QString) {
    exists k :: i <= k < |mods| && name in ModMap(mods[k])
  }

  /** No single file from i on has a name that a later mod has, too. */
  ghost predicate NoClashFrom(mods: seq<Mod>, i: nat) {
    forall k, j :: i <= k < j < |mods| ==> !Clash(mods, k, j)
  }

  /** What the files of the jar are, once the mods from i on were merged. */
  ghost predicate MergedFrom(mods: seq<Mod>, i: nat, zipOut: seq<File>, addedFiles: set<QString>)
    requires i <= |mods|
  {
    && addedFiles == AsMap(zipOut).Keys
    && (forall name :: name in AsMap(zipOut) <==> HasFrom(mods, i, name))
    && (UniqueNames(zipOut) <==> NoClashFrom(mods, i))
    && Override(mods) == Override(mods[..i]) + AsMap(zipOut)
    && forall k :: i <= k < |mods| ==> Usable(mods[k])
  }

  /** Everything added so far could be written, single files included. */
  ghost predicate WrittenFrom(mods: seq<Mod>, i: nat, zipOut: seq<File>, writes: Writer) {
    && MapWritten(AsMap(zipOut), writes)
    && forall k :: i <= k < |mods| && IsSingle(mods[k]) ==> writes(mods[k].kind.file)
  }

  ghost predicate SoFar(mods: seq<Mod>, i: nat, zipOut: seq<File>, addedFiles: set<QString>, writes: Writer)
    requires i <= |mods|
  {
    MergedFrom(mods, i, zipOut, addedFiles) && WrittenFrom(mods, i, zipOut, writes)
  }

  lemma NothingMerged(mods: seq<Mod>)
    ensures MergedFrom(mods, |mods|, [], {})
  {
    assert mods[..|mods|] == mods;
  }

  /** One mod put below what was added before it. */
  lemma ModMerged(mods: seq<Mod>, i: nat, zipOut: seq<File>, addedFiles: set<QString>,
                  out: seq<File>, contained: set<QString>)
    requires i < |mods| && MergedFrom(mods, i + 1, zipOut, addedFiles) && Usable(mods[i])
    requires contained == AsMap(out).Keys && AsMap(out) == ModMap(mods[i]) + AsMap(zipOut)
    requires UniqueNames(out) <==>
             UniqueNames(zipOut) && !(IsSingle(mods[i]) && mods[i].kind.file.name in AsMap(zipOut))
    ensures MergedFrom(mods, i, out, contained)
  {
    assert mods[..i + 1][..i] == mods[..i];
    OverAssociative(Override(mods[..i]), ModMap(mods[i]), AsMap(zipOut));
    forall name ensures HasFrom(mods, i, name) <==> name in ModMap(mods[i]) || HasFrom(mods, i + 1, name) {}
    ClashStep(mods, i);
  }

  lemma ClashStep(mods: seq<Mod>, i: nat)
    requires i < |mods|
    ensures NoClashFrom(mods, i) <==>
            NoClashFrom(mods, i + 1) && !(IsSingle(mods[i]) && HasFrom(mods, i + 1, mods[i].kind.file.name))
  {
    if IsSingle(mods[i]) && HasFrom(mods, i + 1, mods[i].kind.file.name) {
      var j :| i < j < |mods| && mods[i].kind.file.name in ModMap(mods[j]);
      assert Clash(mods, i, j);
    }
    forall j | i < j < |mods| && Clash(mods, i, j) ensures HasFrom(mods, i + 1, mods[i].kind.file.name) {}
  }

  lemma EverythingKept(m: map<QString, Bytes>)
    ensures Filtered(m, Everything()) == m
  {}

  /** The files of the jar once all mods were added. */
  ghost predicate ModsAdded(mods: seq<Mod>, zipOut: seq<File>, addedFiles: set<QString>) {
    AsMap(zipOut) == Override(mods) && addedFiles == AsMap(zipOut).Keys && (UniqueNames(zipOut) <==> NoClash(mods))
  }

  lemma AllMerged(mods: seq<Mod>, zipOut: seq<File>, addedFiles: set<QString>, writes: Writer)
    requires MergedFrom(mods, 0, zipOut, addedFiles) && WrittenFrom(mods, 0, zipOut, writes)
    ensures ModsAdded(mods, zipOut, addedFiles) && AllUsable(mods) && ModsWritten(mods, writes)
  {}

  lemma WrittenOver(m: map<QString, Bytes>, there: map<QString, Bytes>, writes: Writer)
    requires MapWritten(there, writes) && MapWritten(m - there.Keys, writes)
    ensures MapWritten(m + there, writes)
  {
    forall name | name in m + there ensures writes(File(name, (m + there)[name])) {
      assert name !in there ==> name in m - there.Keys;
    }
  }

  lemma ZipWritten(mods: seq<Mod>, i: nat, zipOut: seq<File>, out: seq<File>, writes: Writer)
    requires i < |mods| && WrittenFrom(mods, i + 1, zipOut, writes) && mods[i].kind.Zip? && mods[i].kind.archive.Some?
    requires var files := mods[i].kind.archive.value;
             MergedInto(zipOut, files, Everything(), out) && MapWritten(Added(zipOut, files, Everything()), writes)
    ensures WrittenFrom(mods, i, out, writes)
  {
    WrittenOver(Filtered(AsMap(mods[i].kind.archive.value), Everything()), AsMap(zipOut), writes);
  }

  lemma ZipMerged(mods: seq<Mod>, i: nat, zipOut: seq<File>, addedFiles: set<QString>, out: seq<File>)
    requires i < |mods| && MergedFrom(mods, i + 1, zipOut, addedFiles)
    requires mods[i].enabled && mods[i].kind.Zip? && mods[i].kind.archive.Some?
    requires MergedInto(zipOut, mods[i].kind.archive.value, Everything(), out)
    ensures MergedFrom(mods, i, out, AsMap(out).Keys)
  {
    EverythingKept(AsMap(mods[i].kind.archive.value));
    ModMerged(mods, i, zipOut, addedFiles, out, AsMap(out).Keys);
  }

  lemma FileBelow(files: seq<File>, f: File)
    ensures AsMap(files + [f]) == map[f.name := f.data] + AsMap(files)
    ensures AsMap(files + [f]).Keys == AsMap(files).Keys + {f.name}
    ensures UniqueNames(files + [f]) <==> UniqueNames(files) && f.name !in AsMap(files)
  {
    AsMapSnoc(files, f);
    UniqueSnoc(files, f);
  }

  lemma SingleMerged(mods: seq<Mod>, i: nat, zipOut: seq<File>, addedFiles: set<QString>)
    requires i < |mods| && MergedFrom(mods, i + 1, zipOut, addedFiles) && IsSingle(mods[i])
    ensures var file := mods[i].kind.file; MergedFrom(mods, i, zipOut + [file], addedFiles + {file.name})
  {
    var file := mods[i].kind.file;
    FileBelow(zipOut, file);
    ModMerged(mods, i, zipOut, addedFiles, zipOut + [file], addedFiles + {file.name});
  }

  lemma SingleWritten(mods: seq<Mod>, i: nat, zipOut: seq<File>, writes: Writer)
    requires i < |mods| && WrittenFrom(mods, i + 1, zipOut, writes) && IsSingle(mods[i]) && writes(mods[i].kind.file)
    ensures WrittenFrom(mods, i, zipOut + [mods[i].kind.file], writes)
  {
    FileBelow(zipOut, mods[i].kind.file);
  }

  /** An archive that cannot be read, or of which a file cannot be added, makes the whole jar impossible. */
  lemma ZipFails(mods: seq<Mod>, i: nat, zipOut: seq<File>, addedFiles: set<QString>, writes: Writer)
    requires i < |mods| && MergedFrom(mods, i + 1, zipOut, addedFiles) && mods[i].enabled && mods[i].kind.Zip?
    requires var archive := mods[i].kind.archive;
             !(archive.Some? && MapWritten(Added(zipOut, archive.value, Everything()), writes))
    ensures !(AllUsable(mods) && ModsWritten(mods, writes))
  {
    var archive := mods[i].kind.archive;
    if archive.Some? {
      EverythingKept(AsMap(archive.value));
      var added := Added(zipOut, archive.value, Everything());
      var name :| name in added && !writes(File(name, added[name]));
      assert mods[..i + 1][..i] == mods[..i];
      assert name in Override(mods) && Override(mods)[name] == added[name];
    } else {
      assert !Usable(mods[i]);
    }
  }

  lemma DisabledMerged(mods: seq<Mod>, i: nat, zipOut: seq<File>, addedFiles: set<QString>, writes: Writer)
    requires i < |mods| && SoFar(mods, i + 1, zipOut, addedFiles, writes) && !mods[i].enabled
    ensures SoFar(mods, i, zipOut, addedFiles, writes)
  {
    ModMerged(mods, i, zipOut, addedFiles, zipOut, addedFiles);
  }

  /** Adds one mod below what was added before; fails when the jar cannot be made. */
  method AddMod(mods: seq<Mod>, i: nat, zipOut: seq<File>, addedFiles: set<QString>, writes: Writer)
    returns (ok: bool, out: seq<File>, contained: set<QString>)
    requires i < |mods| && SoFar(mods, i + 1, zipOut, addedFiles, writes) && mods[i].enabled
    ensures ok ==> SoFar(mods, i, out, contained, writes)
    ensures !ok ==> !(AllUsable(mods) && ModsWritten(mods, writes))
  {
    match mods[i].kind {
      case Zip(archive) =>
        ok, out, contained := MergeZipFiles(zipOut, archive, addedFiles, Everything(), writes);
        if ok {
          ZipMerged(mods, i, zipOut, addedFiles, out);
          ZipWritten(mods, i, zipOut, out, writes);
        } else {
          ZipFails(mods, i, zipOut, addedFiles, writes);
        }
      case Single(file) =>
        ok, out, contained := writes(file), zipOut + [file], addedFiles + {file.name};
        if ok {
          SingleMerged(mods, i, zipOut, addedFiles);
          SingleWritten(mods, i, zipOut, writes);
        }
      case Unknown =>
        ok, out, contained := false, zipOut, addedFiles;
        assert !Usable(mods[i]);
    }
  }

  /** Mods are merged from last to first, so that a file already there is one that overrides. */
  method AddMods(mods: seq<Mod>, writes: Writer) returns (ok: bool, zipOut: seq<File>, addedFiles: set<QString>)
    ensures ok <==> AllUsable(mods) && ModsWritten(mods, writes)
    ensures ok ==> ModsAdded(mods, zipOut, addedFiles)
  {
    zipOut, addedFiles := [], {};
    NothingMerged(mods);
    var i := |mods|;
    while i > 0
      invariant 0 <= i <= |mods|
      invariant SoFar(mods, i, zipOut, addedFiles, writes)
    {
      i := i - 1;
      if !mods[i].enabled {
        DisabledMerged(mods, i, zipOut, addedFiles, writes);
        continue;
      }
      ok, zipOut, addedFiles := AddMod(mods, i, zipOut, addedFiles, writes);
      if !ok {
        return;
      }
    }
    AllMerged(mods, zipOut, addedFiles, writes);
    ok := true;
  }

  /** With all mods added, the jar can be finished exactly when the rest of the original jar can be added. */
  lemma RestWritten(source: seq<File>, mods: seq<Mod>, zipOut: seq<File>, addedFiles: set<QString>, writes: Writer)
    requires ModsAdded(mods, zipOut, addedFiles) && ModsWritten(mods, writes)
    ensures AllWritten(source, mods, writes) <==> MapWritten(Added(zipOut, source, NotMeta()), writes)
  {
    var jar, added := JarMap(source, mods), Added(zipOut, source, NotMeta());
    if MapWritten(added, writes) {
      WrittenOver(Filtered(AsMap(source), NotMeta()), AsMap(zipOut), writes);
    }
    if AllWritten(source, mods, writes) {
      forall name | name in added ensures writes(File(name, added[name])) {
        assert name in jar && jar[name] == added[name];
      }
    }
  }

  /** `opens` and `closes` say whether the new archive could be opened and finished. */
  method CreateModdedJar(source: Archive, mods: seq<Mod>, writes: Writer, opens: bool, closes: bool)
    returns (jar: Archive)
    ensures jar.Some? <==>
            opens && closes && source.Some? && AllUsable(mods) && AllWritten(source.value, mods, writes)
    ensures jar.Some? ==>
            AsMap(jar.value) == JarMap(source.value, mods) && (UniqueNames(jar.value) <==> NoClash(mods))
  {
    if !opens {
      return None;
    }
    var ok, zipOut, addedFiles := AddMods(mods, writes);
    if !ok {
      return None;
    }
    var merged, out, _ := MergeZipFiles(zipOut, source, addedFiles, NotMeta(), writes);
    if source.Some? {
      RestWritten(source.value, mods, zipOut, addedFiles, writes);
    }
    if !merged || !closes {
      return None;
    }
    jar := Some(out);
  }

  /** Mod i has the file and no later mod has it. */
  ghost predicate LastWith(mods: seq<Mod>, i: nat, name: QString)
    requires i < |mods|
  {
    && name in ModMap(mods[i])
    && forall j :: i < j < |mods| ==> name !in ModMap(mods[j])
  }

  ghost predicate NoModHas(mods: seq<Mod>, name: QString) {
    forall i :: 0 <= i < |mods| ==> name !in ModMap(mods[i])
  }

  lemma {:induction false} NoneOverrides(mods: seq<Mod>, name: QString)
    requires NoModHas(mods, name)
    ensures name !in Override(mods)
  {
    if mods == [] {
    } else {
      NoneOverrides(mods[..|mods| - 1], name);
    }
  }

  lemma {:induction false} LastModWins(mods: seq<Mod>, i: nat, name: QString)
    requires i < |mods| && LastWith(mods, i, name)
    ensures name in Override(mods) && Override(mods)[name] == ModMap(mods[i])[name]
  {
    var n := |mods| - 1;
    if i < n {
      LastModWins(mods[..n], i, name);
    }
  }

  lemma {:induction false} FindLast(mods: seq<Mod>, name: QString, n: nat) returns (i: nat)
    requires n <= |mods| && !NoModHas(mods, name)
    requires forall j :: n <= j < |mods| ==> name !in ModMap(mods[j])
    ensures i < |mods| && LastWith(mods, i, name)
  {
    if name in ModMap(mods[n - 1]) {
      i := n - 1;
    } else {
      i := FindLast(mods, name, n - 1);
    }
  }

  // ---------- Where the files of the jar come from ----------

  /** The first file of a name has the given content. */
  ghost predicate FirstAt(files: seq<File>, k: nat, name: QString, data: Bytes) {
    && k < |files| && files[k] == File(name, data)
    && forall j :: 0 <= j < k ==> files[j].name != name
  }

  ghost predicate FirstIn(files: seq<File>, name: QString, data: Bytes) {
    exists k: nat :: FirstAt(files, k, name, data)
  }

  ghost predicate Has(m: map<QString, Bytes>, name: QString, data: Bytes) {
    name in m && m[name] == data
  }

  lemma AsMapMeans(files: seq<File>, name: QString, data: Bytes)
    ensures Has(AsMap(files), name, data) <==> FirstIn(files, name, data)
  {
    if k: nat :| FirstAt(files, k, name, data) {
      MapNames(files[..k], name);
      FirstCounts(files, k);
    }
    if name in AsMap(files) {
      MapNames(files, name);
      var i :| 0 <= i < |files| && files[i].name == name;
      var k := FirstNamed(files, name, i);
      MapNames(files[..k], name);
      FirstCounts(files, k);
      assert FirstAt(files, k, name, files[k].data);
    }
  }

  lemma {:induction false} FirstNamed(files: seq<File>, name: QString, i: nat) returns (k: nat)
    requires i < |files| && files[i].name == name
    ensures k <= i && files[k].name == name && forall j :: 0 <= j < k ==> files[j].name != name
  {
    if j :| 0 <= j < i && files[j].name == name {
      k := FirstNamed(files, name, j);
    } else {
      k := i;
    }
  }

  /** An enabled mod has the file: first of its name in the mod's archive, or the mod itself. */
  ghost predicate Provides(m: Mod, name: QString, data: Bytes) {
    m.enabled &&
    match m.kind
    case Zip(archive) => archive.Some? && FirstIn(archive.value, name, data)
    case Single(file) => file == File(name, data)
    case Unknown => false
  }

  lemma ModMapMeans(m: Mod, name: QString, data: Bytes)
    ensures Has(ModMap(m), name, data) <==> Provides(m, name, data)
  {
    if m.kind.Zip? && m.kind.archive.Some? {
      AsMapMeans(m.kind.archive.value, name, data);
    }
  }

  ghost predicate ProvidedBy(mods: seq<Mod>, i: nat, name: QString, data: Bytes) {
    && i < |mods| && Provides(mods[i], name, data)
    && forall j, d: Bytes :: i < j < |mods| ==> !Provides(mods[j], name, d)
  }

  ghost predicate ProvidedByNone(mods: seq<Mod>, name: QString) {
    forall i, d: Bytes :: 0 <= i < |mods| ==> !Provides(mods[i], name, d)
  }

  /** Does the name hold "META-INF"? */
  ghost predicate IsMeta(name: QString) {
    exists k: nat :: IsMetaAt(name, k)
  }

  predicate IsMetaAt(name: QString, k: nat) {
    k + 8 <= |name| && name[k..k + 8] == [0x4D, 0x45, 0x54, 0x41, 0x2D, 0x49, 0x4E, 0x46]
  }

  lemma MetaIsFiltered(name: QString)
    ensures NotMeta()(name) <==> !IsMeta(name)
  {
    forall k: nat ensures OccursAt(name, META_INF, k) <==> IsMetaAt(name, k) {}
    if k: nat :| IsMetaAt(name, k) {
      assert OccursAt(name, META_INF, k) && k <= |name|;
    }
  }

  lemma AnyData(m: Mod, name: QString)
    ensures name in ModMap(m) <==> exists d: Bytes :: Provides(m, name, d)
  {
    if name in ModMap(m) {
      ModMapMeans(m, name, ModMap(m)[name]);
    }
    if d: Bytes :| Provides(m, name, d) {
      ModMapMeans(m, name, d);
    }
  }

  /**
   Where each file of the jar comes from: the last enabled mod that has it; without one, the original jar, unless it is
   a signature file.
   */
  lemma JarFile(source: seq<File>, mods: seq<Mod>, name: QString, data: Bytes)
    ensures Has(JarMap(source, mods), name, data) <==>
            || (exists i: nat :: ProvidedBy(mods, i, name, data))
            || (ProvidedByNone(mods, name) && FirstIn(source, name, data) && !IsMeta(name))
  {
    forall m: Mod ensures name in ModMap(m) <==> exists d: Bytes :: Provides(m, name, d) {
      AnyData(m, name);
    }
    if NoModHas(mods, name) {
      NoneOverrides(mods, name);
      AsMapMeans(source, name, data);
      MetaIsFiltered(name);
    } else {
      var i := FindLast(mods, name, |mods|);
      LastModWins(mods, i, name);
      LastProvider(mods, i, name, data);
    }
  }

  lemma LastProvider(mods: seq<Mod>, i: nat, name: QString, data: Bytes)
    requires i < |mods| && LastWith(mods, i, name)
    requires forall m: Mod :: name in ModMap(m) <==> exists d: Bytes :: Provides(m, name, d)
    ensures ModMap(mods[i])[name] == data <==> exists k: nat :: ProvidedBy(mods, k, name, data)
    ensures !ProvidedByNone(mods, name)
  {
    ModMapMeans(mods[i], name, data);
    ModMapMeans(mods[i], name, ModMap(mods[i])[name]);
    if ModMap(mods[i])[name] == data {
      assert ProvidedBy(mods, i, name, data);
    }
    forall k: nat | ProvidedBy(mods, k, name, data) ensures k == i {
      assert name in ModMap(mods[k]);
    }
  }

  // ---------- A file that is in the jar twice ----------

  const NAME: QString := [LOWER_A]
  const CLASS: File := File(NAME, [1])
  const PATCHED: File := File(NAME, [2])

  /** A single file comes before an archive that has it, too. */
  const CLASHING: seq<Mod> := [Mod(true, Single(CLASS)), Mod(true, Zip(Some([PATCHED])))]

  /** The jar has both files, and the one that counts is that of the later mod. */
  method JarWithBoth() returns (jar: Archive)
    ensures jar.Some? && !UniqueNames(jar.value) && AsMap(jar.value) == map[NAME := PATCHED.data]
  {
    ClashingMods();
    var writes: Writer := (f: File) => true;
    jar := CreateModdedJar(Some([]), CLASHING, writes, true, true);
  }

  lemma ClashingMods()
    ensures AllUsable(CLASHING) && !NoClash(CLASHING) && JarMap([], CLASHING) == map[NAME := PATCHED.data]
  {
    assert AsMap([PATCHED]) == map[NAME := PATCHED.data] by {
      assert [PATCHED][..0] == [];
    }
    assert Clash(CLASHING, 0, 1);
    assert CLASHING[..1] == [CLASHING[0]] && [CLASHING[0]][..0] == [];
    assert Override([CLASHING[0]]) == map[] + ModMap(CLASHING[0]);
    assert Override(CLASHING) == Override([CLASHING[0]]) + ModMap(CLASHING[1]);
  }
}
