# Launcher algorithms

A Dafny model of the algorithmic parts of the launcher, with proofs of what they promise. Strings are sequences of
16-bit code units, as in Qt; containers are Dafny maps, sets and sequences; code that changes things step by step is
written as methods and classes, each proved against a function whose properties are then stated as lemmas.

| part | files | main results |
|---|---|---|
| version strings | `Version.dfy`, `VersionOrder.dfy` | exactly which sections a string has and which string comes first; the order is antisymmetric everywhere and transitive on an exactly described set of strings |
| blocked paths | `PathTree.dfy`, `PathList.dfy`, `PrefixTree.dfy` | what every operation of the separator prefix tree means in terms of contained paths; when saving and loading the list reproduces the tree |
| check-box filter | `FileIgnore.dfy`, `IgnoreEffects.dfy` | what a click on a check box does to every entry of the file tree |
| build trace | `NinjaTrace.dfy`, `NinjaLayout.dfy` | the thread layout never overlaps; how many threads it uses, how few any layout needs, and exactly when these agree |
| gateway connection | `WebSocket.dfy`, `Gateway.dfy` | the bytes of every frame sent, and what any bytes received are read as; frames survive masking, every length form and any division of the stream into reads |
| command lines | `Commandline.dfy`, `CommandPieces.dfy`, `Variables.dfy`, `ExpandParts.dfy`, `ExpandTwice.dfy` | what any command line is split into; when quoting and splitting are inverse; the in-place variable expansion is a left-to-right scanner, and exactly which dictionaries make it idempotent |
| instance list | `InstanceReload.dfy`, `InstanceGroups.dfy`, `GroupFile.dfy`, `InstanceList.dfy` | what a reload keeps; when the cached group counts stay exact; saving and loading groups |
| modded jar | `JarMerge.dfy` | merging backwards and skipping what is there equals loading forwards and overriding |
| launch | `LaunchTask.dfy` | started steps are finalized in reverse, before one end signal, in every run |

`Text.dfy`, `Separators.dfy` and `KeyOrder.dfy` hold what the parts share: code units, splitting at a separator, and the
order in which maps are iterated.

## What the proofs found

- The version order is not transitive: `1-a < 1 < 1-2 < 1-a` (`VersionOrder.ShortCycle`). `VersionOrder.RegularIsExact`
  names the largest set of strings on which it is, in the sense that every string outside it forms a strict cycle with two
  strings inside.
- `SeparatorPrefixTree::contains` is described as asking whether a path is contained, but it only asks whether there is
  a node for it (lines 36-41). In the trees that the operations build, that is so for the contained paths and for those
  above one (`PathList.ExistsMeans`); `PathList.ExistsNotContained` is a node that is not contained.
- Re-checking a covered file looks for entries by string prefix, not by path: with the files `a` and `ab` blocked through
  their directory, checking `ab` also brings `a` back (`IgnoreEffects.CheckingOneFile` is that click).
  `IgnoreEffects.ExactlyOneFile` gives the exact condition under which only one file changes.
- Re-checking a directory below a blocked one unblocks the directory but blocks its contents one by one
  (`IgnoreEffects.DirectoryStaysBlocked`).
- Checking an entry that is not blocked and has no node in the tree clears the whole tree and blocks everything that is
  not on the way to the entry (`IgnoreEffects.CheckedAgain`).
- The thread layout is optimal if and only if no job of length zero has too many jobs in its way (`NinjaLayout.Optimal`);
  `NinjaLayout.EmptyJobWastesAWorker` is a log for which it uses one thread too many. The documentation of `read_targets`
  says that targets are sorted by start time; the code sorts them by end time, latest first, and the layout needs that.
- The documentation of `quoteForSplitCommand` promises that an argument is parsed back unchanged. With the launcher's own
  splitter this fails for empty arguments and for arguments without a space that hold a quote mark or other white space;
  `Commandline.RoundTrip` says exactly when a list survives, and `Commandline.LostArguments` has lists that do not.
- Expanding variables twice can differ from expanding once. `ExpandTwice.IdempotentExactly` says for which dictionaries
  it never does: every value must be left alone in front of any expanded text, and whether it is can be read off the
  dictionary.
- The cached group counts can become wrong in four ways, each with its exact condition and a history that gets there:
  setting a group by a uuid that is itself a key, deleting or renaming a group with members that are not listed,
  committing or restoring an id that is already in a group, and loading a file that lists an instance twice.
- Setting a group by an instance's uuid and asking for it by the same uuid can give another group, when the uuid has an
  entry of its own from before (`InstanceGroups.SetGroupMeans`).
- Undoing a trashing brings an instance back into the group it was trashed from, even if that group has been renamed or
  deleted since (`InstanceLists.TrashThenUndoLater`); `InstanceLists.UndoAfterRename` is a group split that way.
- Aborting a launch before it starts answers yes but sends no signal, because the base class signals only while it runs,
  and any run goes on after it as if nothing had happened (`LaunchTasks.AbortBeforeStart`).
- A launch that the user aborts while it runs ends as a failed one and marks its instance as crashed
  (`LaunchTasks.AbortWhileRunning`).
- Starting a launch again after it has ended starts no step; it finalizes all of them once more and repeats the end
  signal (`LaunchTasks.RunGuarantees`, `LaunchTasks.StartedAgain`).
- A jar mod that is a single file is added without a look at what is there, so that the jar holds two files of a name if
  and only if a later mod has the file, too (`JarMerge.CreateModdedJar`, `JarMerge.JarWithBoth`).
- A launch that was waiting for the user still waits after its end, so that proceeding then reaches a step that has
  finished and was finalized (`LaunchTasks.ToldStep`, `LaunchTasks.ToldAfterEnd`).
- `cover` looks only at prefixes of a path, while `covers` also goes on with empty components, so `cover` can be null for
  a path that is covered (`PathTree.CoverMissesCovered`). `PathTree.CoverAgrees` says for which paths the two agree. In
  the dialog this shows after loading a list with the line `a/`: the box of `a` is partially checked, but `a` is left out
  (`IgnoreEffects.BoxOfSlashed`). `FileIgnore.LoadedProper` says which lists give a tree in which it cannot happen.

## Model

| member | source | states |
|---|---|---|
| `Versions.Version.constructor` | launcher/Version.cpp:101-143 | A version object holds exactly the sections of its string. |
| `Versions.Version.NextSection` | launcher/Version.cpp:104-141 | One round of the tokenizer consumes a non-empty section whose type and extent are those of the head of the rest of the string. |
| `Versions.Version.Parse` | launcher/Version.cpp:101-143 | The nested loops produce the specified sections, stop at the first '+' and terminate. |
| `Versions.Version.CompareTo` | launcher/Version.cpp:145-157 | Comparing with null padding is the specified order of the section lists. |
| `Versions.CompareRunes` | launcher/Version.cpp:81-91 | The rune loop decides by the first difference, else by length. |
| `Text.CompareUnitsMeans` | launcher/Version.cpp:81-91 | One text comes before another if and only if it ends where the other goes on, or has the smaller code unit at their first difference. |
| `VersionOrder.ParseRenders` | launcher/Version.cpp:101-143 | The sections before zero stripping concatenate to the text before the first '+', and have the shapes and neighbours that the tokenizer allows. |
| `VersionOrder.RenderParses` | launcher/Version.cpp:101-143 | Parsing the concatenation of any well-shaped list of sections gives that list back, so the shapes are exact. |
| `VersionOrder.CutExactly` | launcher/Version.cpp:101-143 | The sections of a string are exactly the well-shaped list that makes up its text before the first '+'; a dash or space at the end is a pre-release if and only if a '+' follows. |
| `VersionOrder.StripZerosMeans` | launcher/Version.cpp:94-99 | Stripping takes away exactly the zeros in front. |
| `VersionOrder.NumericByValue` | launcher/Version.cpp:51-66 | Numeric sections in ASCII compare, after zero stripping, as the unbounded natural numbers they denote. |
| `VersionOrder.SectionByUnits` | launcher/Version.cpp:48-92 | How any two sections compare: a missing one comes after a pre-release and before all else, numbers go by length first, everything else by the first code unit that differs. |
| `VersionOrder.OrderByUnits` | launcher/Version.cpp:48-157 | A version comes before another if and only if at the first sections whose values differ its section comes first in that sense, where missing sections are null. |
| `VersionOrder.Antisymmetric` | launcher/Version.cpp:48-157 | On all strings, swapping the operands reverses the outcome. |
| `VersionOrder.TransitiveOnRegular` | launcher/Version.cpp:48-157 | On regular strings the comparison is a total preorder, strict if one side is, and equality means equal sections. |
| `VersionOrder.RegularIsExact` | launcher/Version.cpp:48-157 | A string is regular if and only if it is in no strict cycle with two regular strings: the domain of transitivity cannot be enlarged. |
| `VersionOrder.CycleAtText` | launcher/Version.cpp:80-91 | A text section at or below '-' right after a number yields such a cycle, built explicitly. |
| `VersionOrder.CycleAtPreRelease` | launcher/Version.cpp:67-79 | A pre-release that does not follow a number yields such a cycle, built explicitly. |
| `VersionOrder.ShortCycle` | launcher/Version.cpp:48-157 | The cycle of the three short versions, of which only "1-2" is irregular. |
| `Separators.SplitJoin` | launcher/SeparatorPrefixTree.h:23-32 | Components without a separator come back from the joined string, so component lists and path strings determine each other. |
| `Separators.JoinSplit` | launcher/SeparatorPrefixTree.h:23-32 | Joining the components of any path string gives the string back. |
| `PathTree.InsertContains` | launcher/SeparatorPrefixTree.h:21-34 | Inserting p makes exactly p contained and drops everything below p. |
| `PathTree.InsertAllContains` | launcher/SeparatorPrefixTree.h:13-18 | After a list of insertions a path is contained if the last insertion that could matter put it there, or none could and it was there. |
| `PathTree.InsertCovers` | launcher/SeparatorPrefixTree.h:21-65 | Inserting p makes exactly the paths that p starts covered, and uncovers none. |
| `PathTree.InsertAllCovers` | launcher/SeparatorPrefixTree.h:13-65 | What is covered after a list of insertions depends on the set of paths only, not on their order. |
| `PathTree.CoversMeans` | launcher/SeparatorPrefixTree.h:44-65 | For every tree and path: covered if and only if a contained path starts the path, where the path may be continued by empty components. |
| `PathTree.CleanCovers` | launcher/SeparatorPrefixTree.h:44-65 | When no contained path has an empty component: covered if and only if a contained path is a prefix of the path. |
| `PathTree.CoverMeans` | launcher/SeparatorPrefixTree.h:68-101 | For every tree and path: cover() is null if and only if no contained path is a prefix; otherwise it is the shortest contained prefix without the empty components at its end. |
| `PathTree.CleanCover` | launcher/SeparatorPrefixTree.h:68-101 | For a path without empty components it is the shortest contained prefix itself. |
| `PathTree.CoverAgrees` | launcher/SeparatorPrefixTree.h:44-101 | For every tree and path: cover() finds something exactly where covers() says yes, if and only if a prefix of the path is contained or no continuation of it by empty components is. |
| `PathTree.CoverMissesCovered` | launcher/SeparatorPrefixTree.h:44-101 | A tree and a path for which they disagree. |
| `PathTree.RemoveMeans` | launcher/SeparatorPrefixTree.h:150-225 | Removal succeeds if and only if the node exists; it takes away only the path when that is contained, everything below when it is structural, and nothing on failure. |
| `PathTree.RemoveCovers` | launcher/SeparatorPrefixTree.h:44-225 | What is covered after a removal, for every tree and path. |
| `PathTree.InsertTrim` | launcher/SeparatorPrefixTree.h:21-34 | Insertion keeps that every leaf other than the root is contained. |
| `PathTree.RemoveTrim` | launcher/SeparatorPrefixTree.h:176-225 | Removal keeps it too: pruning leaves no useless node. |
| `PathTree.InsertProper` | launcher/SeparatorPrefixTree.h:21-34 | Insertion of paths without empty components keeps a tree free of useless leaves and of empty components. |
| `PathTree.RemoveProper` | launcher/SeparatorPrefixTree.h:150-225 | Removal of any path keeps it so. |
| `PathList.ListMeans` | launcher/SeparatorPrefixTree.h:155-172 | The list holds exactly the contained paths, each once, descendants before ancestors. |
| `PathList.ListOrder` | launcher/SeparatorPrefixTree.h:155-172 | The order of the list: by the first component that differs, in code units, and what is below a path before the path. |
| `PathList.ReloadKeepsMinimal` | launcher/SeparatorPrefixTree.h:13-34 | Rebuilding a tree from its own list keeps exactly the prefix-minimal paths. |
| `PathList.ReloadKeepsCovers` | launcher/FileIgnoreProxy.cpp:238-302 | Saving and loading changes no answer of covers(), for every tree and every path. |
| `PathList.TrimDetermined` | launcher/SeparatorPrefixTree.h:155-172 | Trees without useless leaves are determined by their contained paths. |
| `PathList.ReloadIdentity` | launcher/FileIgnoreProxy.cpp:238-302 | Such a tree comes back identical if and only if no contained path is a prefix of another. |
| `PathList.ExistsMeans` | launcher/SeparatorPrefixTree.h:104-141 | A tree without useless leaves has a node for exactly the contained paths and those above one. |
| `PathList.ExistsNotContained` | launcher/SeparatorPrefixTree.h:36-41 | A tree with a node that is not contained. |
| `PathList.BuiltFromList` | launcher/SeparatorPrefixTree.h:13-34 | A tree built from any list has no useless leaves; it has no empty components if and only if every path that has one is followed by one that starts it. |
| `PrefixTrees.PrefixTree.constructor` | launcher/SeparatorPrefixTree.h:11-11 | A new node stands for the tree with that mark and no children. |
| `PrefixTrees.PrefixTree.Insert` | launcher/SeparatorPrefixTree.h:21-34 | The mutable insertion has the specified effect on the whole tree and returns the fresh leaf. |
| `PrefixTrees.PrefixTree.InsertPaths` | launcher/SeparatorPrefixTree.h:13-18 | Inserting a list in order. |
| `PrefixTrees.PrefixTree.Covers` | launcher/SeparatorPrefixTree.h:44-65 | Agrees with the specified covers() for every path string. |
| `PrefixTrees.PrefixTree.Cover` | launcher/SeparatorPrefixTree.h:68-101 | Agrees with the specified cover(), null strings included. |
| `PrefixTrees.PrefixTree.Exists` | launcher/SeparatorPrefixTree.h:104-121 | True if and only if the tree has a node for the path. |
| `PrefixTrees.PrefixTree.Find` | launcher/SeparatorPrefixTree.h:124-141 | Null if and only if there is no node; otherwise the node of the subtree at the path. |
| `PrefixTrees.PrefixTree.Contains` | launcher/SeparatorPrefixTree.h:36-41 | True if and only if the tree has a node for the path, contained or not. |
| `PrefixTrees.PrefixTree.Clear` | launcher/SeparatorPrefixTree.h:153-153 | Drops all children and keeps the node's own mark. |
| `PrefixTrees.PrefixTree.Remove` | launcher/SeparatorPrefixTree.h:150-150 | The mutable removal has the specified effect, and reports failure exactly when the specification does. |
| `PrefixTrees.PrefixTree.RemoveInternal` | launcher/SeparatorPrefixTree.h:176-225 | Removal with its three outcomes, pruning on the way back. |
| `PrefixTrees.PrefixTree.ToStringList` | launcher/SeparatorPrefixTree.h:155-172 | The strings of the specified list, in the order of the map's keys. |
| `FileIgnore.FileIgnoreProxy.Data` | launcher/FileIgnoreProxy.cpp:103-114 | The check box shown for an entry is decided by its cover and its node. |
| `FileIgnore.FileIgnoreProxy.IgnoreFile` | launcher/FileIgnoreProxy.cpp:264-277 | A file is ignored by its name, by an ending of its name, or by its path. |
| `FileIgnore.IgnoredMeans` | launcher/FileIgnoreProxy.cpp:264-277 | Ignored means: the name is listed, or is some text followed by a listed ending, or a listed path starts the file's path. |
| `FileIgnore.FileIgnoreProxy.FilterFile` | launcher/FileIgnoreProxy.cpp:279-282 | A file is left out if and only if the blocked tree covers its path or it is ignored. |
| `FileIgnore.FileIgnoreProxy.SetBlockedPaths` | launcher/FileIgnoreProxy.cpp:238-244 | The old blocked paths are gone and the given ones inserted in order. |
| `FileIgnore.FileIgnoreProxy.LoadBlockedPaths` | launcher/FileIgnoreProxy.cpp:284-293 | The non-empty lines of the text become the blocked paths. |
| `FileIgnore.LinesMean` | launcher/FileIgnoreProxy.cpp:291-292 | The lines are the pieces between line feeds, in order, without the empty ones. |
| `FileIgnore.FileIgnoreProxy.SaveBlockedPaths` | launcher/FileIgnoreProxy.cpp:295-302 | The text is the list of the tree, one path a line. |
| `FileIgnore.LoadOfSave` | launcher/FileIgnoreProxy.cpp:284-302 | The saved list survives being loaded if and only if every blocked path is a non-empty string of one line; then the tree is rebuilt from its own list. |
| `FileIgnore.LoadedProper` | launcher/FileIgnoreProxy.cpp:284-293 | The tree loaded from any text has no useless leaves; it has no empty components if and only if every line that has one is dropped again by a later line. |
| `FileIgnore.FileIgnoreProxy.SetFilterState` | launcher/FileIgnoreProxy.cpp:135-187 | A click inserts, removes or uncovers; the tree stays proper. |
| `FileIgnore.FileIgnoreProxy.Uncover` | launcher/FileIgnoreProxy.cpp:154-185 | The cover is removed and exactly the first entries off the way to the clicked one are blocked instead. |
| `FileIgnore.FileIgnoreProxy.BlockContents` | launcher/FileIgnoreProxy.cpp:158-184 | The stack traversal terminates on every finite tree and blocks exactly those entries. |
| `IgnoreEffects.BlockEffect` | launcher/FileIgnoreProxy.cpp:146-151 | Unchecking an entry leaves out it and what is below it, and nothing else. |
| `IgnoreEffects.AfterRemoval` | launcher/FileIgnoreProxy.cpp:152-153 | For every tree: after an entry was checked directly, another is left out if and only if a blocked path that covered it survives. |
| `IgnoreEffects.RemoveEffect` | launcher/FileIgnoreProxy.cpp:152-153 | For every tree: checking an entry with a node of its own brings back it and what is below it, and nothing else, if and only if nothing is blocked above it, and nothing below it when it is blocked itself. |
| `IgnoreEffects.CheckStateMeans` | launcher/FileIgnoreProxy.cpp:103-114 | In every tree without useless leaves: unchecked means that a blocked path starts the entry's; partially checked that none does, but one lies below it. |
| `IgnoreEffects.CheckStateTells` | launcher/FileIgnoreProxy.cpp:103-114 | For every tree: the box is unchecked exactly when the entry is left out, if and only if a blocked path starts the entry's or none continues it by empty components; so it always is in trees without empty components. |
| `IgnoreEffects.BoxOfSlashed` | launcher/FileIgnoreProxy.cpp:103-293 | A list that is loaded, after which the box of an entry does not tell that it is left out. |
| `IgnoreEffects.UncoverEffect` | launcher/FileIgnoreProxy.cpp:152-185 | For every tree whose root is not blocked: after checking a covered entry without a node, which entries are left out, for every entry of the file tree. |
| `IgnoreEffects.CheckedAgain` | launcher/FileIgnoreProxy.cpp:152-185 | For every such tree: after checking an uncovered entry without a node, everything is left out that does not lie on the way by string prefix. |
| `IgnoreEffects.ExactlyOneFile` | launcher/FileIgnoreProxy.cpp:152-185 | For every such tree: checking a covered file changes exactly that file if and only if the cover was all that blocked it, and every other file below the cover whose path is a string prefix of its path is blocked otherwise. |
| `IgnoreEffects.ExactlyOneFileInAntichain` | launcher/FileIgnoreProxy.cpp:152-185 | When no blocked path starts another: if and only if there is no such other file. |
| `IgnoreEffects.CheckingOneFile` | launcher/FileIgnoreProxy.cpp:135-187 | A sequence of clicks after which checking one file has brought back another. |
| `IgnoreEffects.DirectoryStaysBlocked` | launcher/FileIgnoreProxy.cpp:158-184 | What lies below a checked covered directory stays left out. |
| `IgnoreEffects.BlockAntichain` | launcher/FileIgnoreProxy.cpp:146-151 | Blocking keeps that no blocked path starts another if and only if no proper ancestor is blocked. |
| `IgnoreEffects.RemoveAntichain` | launcher/FileIgnoreProxy.cpp:152-153 | Unblocking keeps it always. |
| `IgnoreEffects.UncoverAntichain` | launcher/FileIgnoreProxy.cpp:154-185 | Uncovering keeps it always. |
| `NinjaTrace.ReadTargets` | tools/ninjatracing.py:43-68 | Reading line by line, dropping earlier builds, yields the jobs of the last build sorted by end. |
| `NinjaTrace.LastBuildMeans` | tools/ninjatracing.py:61-66 | The last build is the longest final run of lines whose end times never go back. |
| `NinjaTrace.BuildsMean` | tools/ninjatracing.py:57-60 | Comments are skipped, every other line counts, in order. |
| `NinjaTrace.GroupKeepsNames` | tools/ninjatracing.py:67-67 | Every output of every line ends up in exactly one job. |
| `NinjaTrace.GroupHashes` | tools/ninjatracing.py:67-67 | There is one job for each command hash that occurs. |
| `NinjaTrace.GroupTimes` | tools/ninjatracing.py:67-67 | A job has the times of the first line with its hash. |
| `NinjaTrace.GroupTargets` | tools/ninjatracing.py:67-67 | A job has the outputs of exactly the lines with its hash, in the order of the log. |
| `NinjaTrace.GroupOrder` | tools/ninjatracing.py:67-68 | The jobs come in the order in which their hashes first occur. |
| `NinjaTrace.SortByEndSorts` | tools/ninjatracing.py:68-68 | Sorting is a permutation with the latest end first. |
| `NinjaTrace.SortByEndIsStable` | tools/ninjatracing.py:68-68 | Jobs that end at the same time stay in order. |
| `NinjaTrace.Threads.constructor` | tools/ninjatracing.py:73-74 | No workers at first. |
| `NinjaTrace.Threads.Alloc` | tools/ninjatracing.py:76-83 | The first worker that is free from the job's end on, or a new one; its time becomes the job's start. |
| `NinjaTrace.AllocAll` | tools/ninjatracing.py:139-141 | The worker of every job, in order. |
| `NinjaTrace.LogToTids` | tools/ninjatracing.py:136-141 | For any log, no two overlapping jobs share a thread. |
| `NinjaTrace.NoOverlap` | tools/ninjatracing.py:71-83 | Jobs sorted by descending end are laid out without overlap, on the workers counted. |
| `NinjaLayout.WorkersCount` | tools/ninjatracing.py:76-83 | For all sorted jobs, the number of workers is one more than the most earlier jobs that start before a job ends. |
| `NinjaLayout.NeededIsMinimum` | tools/ninjatracing.py:71-83 | The jobs fit on k workers without overlap if and only if k is at least the number needed: both a layout and a bound for all layouts. |
| `NinjaLayout.NeededIsPeak` | tools/ninjatracing.py:71-83 | The number needed is the largest number of jobs running at once, or going on around a job of length zero together with it. |
| `NinjaLayout.DepthIsLowerBound` | tools/ninjatracing.py:71-83 | Any layout without overlap needs as many workers as jobs run at once. |
| `NinjaLayout.Optimal` | tools/ninjatracing.py:71-83 | No layout without overlap uses fewer workers, if and only if every job of length zero has fewer jobs in its way than workers are needed. |
| `NinjaLayout.TraceOptimal` | tools/ninjatracing.py:136-141 | The same for the trace of any log. |
| `NinjaLayout.WorkersAreDepth` | tools/ninjatracing.py:71-83 | Never more jobs run at once than there are workers; as many do at some time, if and only if every job of length zero has fewer jobs in its way than run at once at some time. |
| `NinjaLayout.OptimalWithDurations` | tools/ninjatracing.py:71-83 | With positive durations both always hold. |
| `NinjaLayout.EmptyJobWastesAWorker` | tools/ninjatracing.py:61-83 | A log whose trace uses two workers where one would do. |
| `WebSocket.BuildFrame` | launcher/discord/DiscordRPC.cpp:890-919 | The bytes built are the final, masked frame of section 5.2 of RFC 6455 in the shortest length form. |
| `WebSocket.SentBytes` | launcher/discord/DiscordRPC.cpp:885-922 | The bytes of every frame sent, one by one: final, opcode, length in its shortest form, the random number as mask, and the payload combined with it bit by bit. |
| `WebSocket.SentIsShortest` | launcher/discord/DiscordRPC.cpp:893-905 | No valid way to write the same payload under the same mask is shorter. |
| `WebSocket.BigEndianRoundTrip` | launcher/discord/DiscordRPC.cpp:902-904 | Length bytes written high to low read back as the length. |
| `WebSocket.XorTwice` | launcher/discord/DiscordRPC.cpp:915-918 | Masking twice with one key gives the payload back (section 5.3 of RFC 6455). |
| `WebSocket.XorBit` | launcher/discord/DiscordRPC.cpp:915-918 | A bit of a masked byte is set if and only if exactly one of the bits of the byte and of the mask is. |
| `WebSocket.ParseStable` | launcher/discord/DiscordRPC.cpp:943-984 | Bytes that arrive later do not change a complete frame. |
| `WebSocket.ParseInvertsWire` | launcher/discord/DiscordRPC.cpp:943-984 | The receiver reads back opcode, payload and length of every frame of any form and mask, whatever follows it. |
| `WebSocket.ReadsArrived` | launcher/discord/DiscordRPC.cpp:943-985 | Any bytes laid out as a frame, in any form, masked or not, are read as their opcode and payload, whatever follows. |
| `WebSocket.PartNeedsMore` | launcher/discord/DiscordRPC.cpp:953-976 | A frame that has not arrived in full is waited for. |
| `WebSocket.LongIsTooLong` | launcher/discord/DiscordRPC.cpp:974-978 | A frame is never read if and only if header and payload together reach 2^31 bytes. |
| `Gateway.ReadLength` | launcher/discord/DiscordRPC.cpp:962-965 | The shifting loop computes the big-endian value. |
| `Gateway.Unmask` | launcher/discord/DiscordRPC.cpp:978-983 | The in-place loop applies the mask to every byte. |
| `Gateway.ReadFrame` | launcher/discord/DiscordRPC.cpp:943-984 | The receiver's steps decide and decode one frame as specified, incomplete ones included. |
| `Gateway.DrainAppend` | launcher/discord/DiscordRPC.cpp:943-995 | Draining early and again later finds the same frames as draining everything at once. |
| `Gateway.DrainInvertsWire` | launcher/discord/DiscordRPC.cpp:943-995 | Draining a sequence of frames yields their opcodes and payloads up to the first close frame. |
| `Gateway.ReceiveTwice` | launcher/discord/DiscordRPC.cpp:925-995 | Two reads do what one read of both pieces does, before and after the upgrade. |
| `Gateway.ChunksDoNotMatter` | launcher/discord/DiscordRPC.cpp:925-995 | Any division of the stream into reads ends in the same state. |
| `Gateway.RecoversFrames` | launcher/discord/DiscordRPC.cpp:925-995 | After an accepted upgrade, any frames, masks and division into reads: the frames received are those sent, in order, up to the first close frame, and nothing is left over. |
| `Gateway.WaitsForHeader` | launcher/discord/DiscordRPC.cpp:925-933 | As long as there is no empty line, the bytes are only collected. |
| `Gateway.RefusedUpgrade` | launcher/discord/DiscordRPC.cpp:934-939 | A header without "101" takes the connection down, and nothing after it is read. |
| `Gateway.FindMeans` | launcher/discord/DiscordRPC.cpp:930-936 | A search gives the first occurrence, and fails only if there is none. |
| `Gateway.UpToCloseMeans` | launcher/discord/DiscordRPC.cpp:987-993 | What is received is the beginning of the frames that ends at the first close frame, or all of them. |
| `Gateway.AnswersMean` | launcher/discord/DiscordRPC.cpp:987-994 | One pong for every ping with its payload, in order; status 1000 for a close frame; nothing else is sent; the handler gets exactly the payloads of the text frames. |
| `Gateway.GatewaySocket.constructor` | launcher/discord/DiscordRPC.cpp:831-834 | A new connection has an empty buffer and is not upgraded. |
| `Gateway.GatewaySocket.SendFrame` | launcher/discord/DiscordRPC.cpp:884-923 | Appends one frame to what was written; sends nothing when the connection is not upgraded. |
| `Gateway.GatewaySocket.Disconnect` | launcher/discord/DiscordRPC.cpp:838-861 | Sends a close frame with status 1000 on an upgraded connection, and resets the state, connected or not. |
| `Gateway.GatewaySocket.OnReadyRead` | launcher/discord/DiscordRPC.cpp:925-995 | One read moves the connection as specified, and keeps that every ping and close frame was answered and every text frame handed on, in order. |
| `Gateway.GatewaySocket.ReadHeader` | launcher/discord/DiscordRPC.cpp:929-941 | Waits for the header's end; anything without "101" takes the connection down. |
| `Gateway.GatewaySocket.DrainBuffer` | launcher/discord/DiscordRPC.cpp:943-995 | The receive loop handles all complete frames of the buffer and keeps the rest. |
| `Commandline.SplitArgs` | launcher/Commandline.cpp:47-88 | The loop is the specified character machine with its one-character lookahead. |
| `CommandPieces.ArgumentsAreWords` | launcher/Commandline.cpp:47-88 | A command line of characters, blanks and quotations is split into its words: the pieces between blanks, joined, quotations without the backslashes that stand before their own mark or a backslash, empty words left out. |
| `CommandPieces.PiecesOf` | launcher/Commandline.cpp:47-88 | Every command line consists of such pieces, the last of which may be a quotation that is never closed. |
| `CommandPieces.QuotedLiteral` | launcher/Commandline.cpp:58-66 | A text without the mark, without two backslashes in a row and without one at its end comes back unchanged from quotation marks of either kind. |
| `Commandline.EscapeIsTwoReplacements` | launcher/Commandline.cpp:160-162 | Replacing backslashes, then quotes, puts one backslash before each of either. |
| `Commandline.EscapeAppend` | launcher/Commandline.cpp:160-162 | Each backslash and each double quote gets one backslash before it, everything else stays. |
| `Commandline.QuoteMeans` | launcher/Commandline.cpp:154-163 | Text without a space stays; other text is put, escaped, between double quotes. |
| `Commandline.ScanQuoted` | launcher/Commandline.cpp:57-83 | A quoted argument is read back whole, backslashes and quotes included. |
| `Commandline.ScanBare` | launcher/Commandline.cpp:47-88 | Reading an argument without spaces adds no characters, loses every quote mark and white space, and completes no string that holds a space. |
| `Commandline.RoundTrip` | launcher/Commandline.cpp:47-163 | Quoting, joining and splitting give a list back if and only if every argument holds a space or is non-empty without white space and quote marks. |
| `Commandline.LostArguments` | launcher/Commandline.cpp:47-163 | The empty argument, a quote mark, and white space other than a space come back as no argument. |
| `Variables.ExpandVariables` | launcher/Commandline.cpp:90-143 | The loop that edits its own input and moves its index terminates and equals a left-to-right scanner that never reads inserted text. |
| `Variables.CloseBrace` | launcher/Commandline.cpp:115-124 | At a closing brace, the in-place replacement keeps what the rest will expand to. |
| `Variables.EndName` | launcher/Commandline.cpp:125-134 | At the end of a bare name, the replacement keeps it too, and the terminator is read again only if the variable has a value. |
| `Variables.PlainCharacter` | launcher/Commandline.cpp:98-103 | A character other than '$' stands for itself. |
| `Variables.SetInBraces` | launcher/Commandline.cpp:115-124 | A reference in braces to a variable with a value is replaced; the name goes up to the first closing brace. |
| `Variables.UnsetInBraces` | launcher/Commandline.cpp:115-124 | Any other complete reference in braces stays. |
| `Variables.OpenBrace` | launcher/Commandline.cpp:104-143 | A brace that is never closed, and all after it, stays. |
| `Variables.SetBare` | launcher/Commandline.cpp:104-134 | A bare reference is replaced, and its name goes on as long as there are letters, numbers or underscores. |
| `Variables.UnsetBareThen` | launcher/Commandline.cpp:125-134 | Any other bare reference stays, together with the character after it, which begins no reference. |
| `Variables.UnsetBareAtEnd` | launcher/Commandline.cpp:135-143 | At the end it stays, too. |
| `Variables.DollarThen` | launcher/Commandline.cpp:104-114 | A dollar sign before anything else stays, together with that character. |
| `Variables.DollarAtEnd` | launcher/Commandline.cpp:135-143 | A dollar sign at the end stays. |
| `Variables.RulesCover` | launcher/Commandline.cpp:90-143 | One of these rules applies to every input, so together they say what expansion does. |
| `ExpandParts.Splits` | launcher/Commandline.cpp:90-143 | Expanding a text expands its closed parts on their own, and lets an open reference at its end go on with what follows. |
| `ExpandTwice.SettledTwice` | launcher/Commandline.cpp:90-143 | With a settled dictionary, expanding twice is expanding once. |
| `ExpandTwice.NoReferenceEnd` | launcher/Commandline.cpp:104-114 | If expanding twice is always expanding once, no value ends in a lone dollar sign or a bare name. |
| `ExpandTwice.FixedIsStable` | launcher/Commandline.cpp:90-143 | Then, too, a text that expansion leaves alone holds only references that stand for themselves. |
| `ExpandTwice.IdempotentExactly` | launcher/Commandline.cpp:90-143 | Expanding twice is expanding once on every input if and only if the dictionary is settled: every value holds only references that stand for themselves, does not end in a bare reference, and leaves open no brace that expanded text completes to a variable. |
| `ExpandTwice.PlainNamesComplete` | launcher/Commandline.cpp:115-124 | When no name has a dollar sign, completing an open brace means being the beginning of a variable name. |
| `ExpandTwice.Idempotent` | launcher/Commandline.cpp:90-143 | In particular when no value holds a dollar sign. |
| `ExpandTwice.HarmlessDollar` | launcher/Commandline.cpp:90-143 | A value with a dollar sign that is settled all the same. |
| `ExpandTwice.NotIdempotentWithDollar` | launcher/Commandline.cpp:90-143 | A dictionary and an input that needs two rounds. |
| `Variables.Process` | launcher/Commandline.cpp:145-152 | Each split argument is expanded on its own; values are not split again. |
| `InstanceReload.GetIdMapping` | launcher/InstanceList.cpp:466-479 | Every id is mapped to a position that holds it. |
| `InstanceReload.EraseRanges` | launcher/InstanceList.cpp:553-588 | Erasing contiguous ranges back to front with moving bookmarks leaves exactly the elements at live positions, in order. |
| `InstanceReload.LoadList` | launcher/InstanceList.cpp:535-595 | A reload leaves the discovered instances in their old order, followed by the newly loaded ones in discovery order. |
| `InstanceReload.ReloadedMeans` | launcher/InstanceList.cpp:535-595 | Ids stay unique, and are those discovered that were there or could be loaded. |
| `InstanceReload.ReloadedOrder` | launcher/InstanceList.cpp:535-595 | The instances that were there are the same objects in their old order; after them come the new ones, as loaded, in the order of discovery. |
| `InstanceGroups.SetGroupExact` | launcher/InstanceList.cpp:242-273 | Setting a group keeps the counts exact if and only if it is not asked for under a uuid that is a key of its own. |
| `InstanceGroups.OwnIdIsNotStale` | launcher/InstanceList.cpp:242-273 | With an instance's own id that condition always holds. |
| `InstanceGroups.InstanceByIdMeans` | launcher/InstanceList.cpp:679-690 | The first instance whose id or uuid it is; none for the empty string. |
| `InstanceGroups.SetGroupMeans` | launcher/InstanceList.cpp:242-273 | Setting a group changes exactly one entry of the map, and which one; asking again gives the new group, with the exact exception. |
| `InstanceGroups.SetGroupFlags` | launcher/InstanceList.cpp:252-270 | A group that loses its last member forgets that it was collapsed; other flags stay. |
| `InstanceGroups.DeleteExact` | launcher/InstanceList.cpp:280-303 | Deleting a group keeps the counts exact if and only if all its members are listed. |
| `InstanceGroups.DeleteIndex` | launcher/InstanceList.cpp:287-299 | Deleting takes exactly the listed members out of the map. |
| `InstanceGroups.RenameExact` | launcher/InstanceList.cpp:305-331 | Renaming keeps the counts exact if and only if all members of the old group are listed. |
| `InstanceGroups.RenameMeans` | launcher/InstanceList.cpp:305-331 | Exactly the listed members' entries move to the new group, and new entries are only those of listed instances. |
| `InstanceGroups.RenameFlags` | launcher/InstanceList.cpp:305-311 | The new group is collapsed when the old one was. |
| `InstanceGroups.LeaveExact` | launcher/InstanceList.cpp:346-354 | Trashing and deleting keep the counts exact, whatever the id. |
| `InstanceGroups.EnterExact` | launcher/InstanceList.cpp:425-426 | Restoring and committing keep the counts exact if and only if the id was in no group. |
| `InstanceGroups.HistoryExact` | launcher/InstanceList.cpp:242-463 | Over any history of operations the counts are exact throughout if and only if every operation met its condition when it came. |
| `InstanceGroups.UuidSpoils` | launcher/InstanceList.cpp:242-273 | Two settings by uuid, after which the counts are wrong. |
| `InstanceGroups.SecondAddSpoils` | launcher/InstanceList.cpp:1167-1168 | Adding an id twice, after which the counts are wrong. |
| `InstanceGroups.UnlistedSpoils` | launcher/InstanceList.cpp:280-331 | Deleting, and renaming, a group with an unlisted member, after which the counts are wrong. |
| `GroupFile.Save` | launcher/InstanceList.cpp:788-821 | The file lists every populated group once with exactly its members and its collapsed flag. |
| `GroupFile.Load` | launcher/InstanceList.cpp:883-922 | Reading the file entry by entry gives the specified state, whatever was there before. |
| `GroupFile.LoadExact` | launcher/InstanceList.cpp:883-913 | Loading any file gives exact counts if and only if no instance is listed twice. |
| `GroupFile.LoadedMeans` | launcher/InstanceList.cpp:883-922 | For any file: an instance is in the group, last by name, that lists it; a group is collapsed if and only if it can be read and says so. |
| `GroupFile.TwiceListedSpoils` | launcher/InstanceList.cpp:909-912 | A file that lists an instance twice, after which the counts are wrong. |
| `GroupFile.LoadOfSave` | launcher/InstanceList.cpp:788-922 | Loading what was saved restores the map for non-empty groups, exact counts whatever the cache held, and the collapsed flags of populated groups and of the ungrouped entry. |
| `InstanceLists.FreeId` | launcher/InstanceList.cpp:398-401 | Appending ones ends at an id that is not taken. |
| `InstanceLists.FreeIdIsFirst` | launcher/InstanceList.cpp:398-401 | It is the first of the id, the id with one, with two, ... ones appended that is not taken. |
| `InstanceLists.InstanceList.constructor` | launcher/InstanceList.h:195-209 | An empty list with no groups, and nothing known yet. |
| `InstanceLists.InstanceList.SaveGroupList` | launcher/InstanceList.cpp:780-829 | The file is written only when the instances are known and it can be written. |
| `InstanceLists.InstanceList.LoadGroupList` | launcher/InstanceList.cpp:831-929 | The old groups are forgotten and replaced by those of the file, or of the legacy file when there is none, which is then saved in the new place. |
| `InstanceLists.InstanceList.LoadList` | launcher/InstanceList.cpp:535-595 | Reloading keeps ids unique and marks the instances as known; a new instance makes it load the groups, unless they were loaded. |
| `InstanceLists.InstanceList.IncreaseGroupCount` | launcher/InstanceList.cpp:759-766 | Counts one more member, never for the ungrouped entry. |
| `InstanceLists.InstanceList.DecreaseGroupCount` | launcher/InstanceList.cpp:768-778 | Counts one less; an empty group loses its count and its collapsed flag. |
| `InstanceLists.InstanceList.GetInstanceById` | launcher/InstanceList.cpp:679-690 | The first instance with that id or uuid; none for the empty string. |
| `InstanceLists.InstanceList.GetInstanceGroup` | launcher/InstanceList.cpp:224-240 | The group under the id itself, else under the id of the instance it names. |
| `InstanceLists.InstanceList.SetInstanceGroup` | launcher/InstanceList.cpp:242-273 | Changes map and counts as specified, and the file follows every change. |
| `InstanceLists.InstanceList.DeleteGroup` | launcher/InstanceList.cpp:280-303 | The loop over the instances deletes the group as specified; the file follows if the map changed. |
| `InstanceLists.InstanceList.RenameGroup` | launcher/InstanceList.cpp:305-331 | The loop renames the group as specified and moves its collapsed flag. |
| `InstanceLists.InstanceList.TrashInstance` | launcher/InstanceList.cpp:338-382 | The instance leaves its group and the file follows even when the move to the trash fails; a success is remembered with the shortcuts that could be trashed. |
| `InstanceLists.WorkingMeans` | launcher/InstanceList.cpp:362-378 | The shortcuts that could be trashed are remembered, in order, and no others. |
| `InstanceLists.InstanceList.UndoTrashInstance` | launcher/InstanceList.cpp:389-431 | The last trashed instance comes back into its old group under a free id and the file follows; the answer is yes only if all its shortcuts came back. |
| `InstanceLists.InstanceList.DeleteInstance` | launcher/InstanceList.cpp:433-446 | A listed instance leaves its group and the file follows. |
| `InstanceLists.InstanceList.CommitStagedInstance` | launcher/InstanceList.cpp:1125-1180 | A new instance enters its group, an overridden one keeps the group it had, and the file follows; an unknown target or a failing move changes nothing. |
| `InstanceLists.TrashThenUndo` | launcher/InstanceList.cpp:338-431 | Trashing any id and undoing that, under whatever id is free: the counts are those from before, and right if and only if the instance does not come back under a new id that is in a group; and exactly when the map is restored. |
| `InstanceLists.CountsRestored` | launcher/InstanceList.cpp:338-431 | Every count is restored, and only a group that was left empty in between forgets that it was collapsed. |
| `InstanceLists.TrashThenUndoLater` | launcher/InstanceList.cpp:242-431 | Undoing after any other operations that kept the counts: the instance is back in the group it was trashed from, all other ids stay where they are, and the counts are right if and only if the id it comes back under is in no group by then. |
| `InstanceLists.UndoAfterRename` | launcher/InstanceList.cpp:305-431 | A group is renamed in between, and the instance comes back under the old name. |
| `JarMerge.MergeZipFiles` | launcher/MMCZip.cpp:53-69 | What is there wins over what is merged, which wins by its first file of a name; no name becomes double; fails if and only if the archive cannot be read or one of the files to add cannot be written. |
| `JarMerge.AddMods` | launcher/MMCZip.cpp:102-144 | Succeeds if and only if every enabled mod is a readable archive or a single file and all that is to be added can be written; then the files are the mods in list order, each overriding the ones before. |
| `JarMerge.CreateModdedJar` | launcher/MMCZip.cpp:87-164 | Succeeds if and only if the source and every enabled mod can be read and everything can be written; then the contents are the mods in list order over the filtered source, and names are unique if and only if no later mod has the file of a single-file mod. |
| `JarMerge.JarWithBoth` | launcher/MMCZip.cpp:112-120 | Two mods of which the jar has both files of one name. |
| `JarMerge.LastModWins` | launcher/MMCZip.cpp:99-148 | The last enabled mod in list order that has a name decides its content. |
| `JarMerge.JarFile` | launcher/MMCZip.cpp:87-164 | The jar has a file with some content if and only if the last enabled mod with that name has it so, or no enabled mod has the name, the source has it so and the name does not hold META-INF. |
| `LaunchTasks.LaunchTask.constructor` | launcher/launch/LaunchTask.cpp:50-62 | A new task marks its instance as running. |
| `LaunchTasks.LaunchTask.Launch` | launcher/tasks/Task.cpp:84-117 | Starting a running launch does nothing; otherwise it is executed, also when it has ended before. |
| `LaunchTasks.LaunchTask.ExecuteTask` | launcher/launch/LaunchTask.cpp:74-84 | Starts the first step, or succeeds at once when there is none; after an end, goes on from the current step. |
| `LaunchTasks.LaunchTask.OnStepFinished` | launcher/launch/LaunchTask.cpp:92-114 | Starts the next step, or ends the launch after the last one or a failure. |
| `LaunchTasks.LaunchTask.FinalizeSteps` | launcher/launch/LaunchTask.cpp:116-126 | The loop finalizes the current step and all before it, downwards, before the end signal. |
| `LaunchTasks.LaunchTask.OnReady` | launcher/launch/LaunchTask.cpp:86-90 | The launch waits for the user; a progress request does the same. |
| `LaunchTasks.LaunchTask.DoAbort` | launcher/launch/LaunchTask.cpp:175-202 | What abort answers and changes, before the start and after it. |
| `LaunchTasks.LaunchTask.Signal` | launcher/tasks/Task.cpp:119-161 | An end is signalled only while the launch is running, so never twice. |
| `LaunchTasks.LaunchTask.EmitSucceeded` | launcher/launch/LaunchTask.cpp:298-302 | The instance stops running, then success is signalled. |
| `LaunchTasks.LaunchTask.EmitFailed` | launcher/launch/LaunchTask.cpp:304-309 | The instance stops running and is marked crashed, then the failure is signalled. |
| `LaunchTasks.RunKeepsInvariant` | launcher/launch/LaunchTask.cpp:74-126 | In every run from the creation on, with any starts, aborts and callbacks, in which a step finishes at most once and only after its start: the steps up to the current one were started in order and all but the current one have finished, until everything is finalized and signalled. |
| `LaunchTasks.RunGuarantees` | launcher/launch/LaunchTask.cpp:74-309 | In every such run: nothing is done before the first start; then running and not crashed until the end signal; afterwards the actions are starts, finalizations and one signal, success means the last step was reached, and every further start finalizes the steps again and repeats the signal. |
| `LaunchTasks.StartedOnce` | launcher/launch/LaunchTask.cpp:74-309 | In a run with one start: all starts, then all finalizations, then one signal. |
| `LaunchTasks.StartedAgain` | launcher/launch/LaunchTask.cpp:74-126 | A run in which a second start finalizes a step again. |
| `LaunchTasks.FinalizedInReverse` | launcher/launch/LaunchTask.cpp:116-126 | The finalized steps are the started ones in reverse order. |
| `LaunchTasks.ToldStep` | launcher/launch/LaunchTask.cpp:149-155 | In every such run, proceeding reaches a started step, and that step has finished if and only if the launch has ended. |
| `LaunchTasks.ToldAfterEnd` | launcher/launch/LaunchTask.cpp:86-155 | A run after whose end proceeding still reaches its step. |
| `LaunchTasks.AbortWhileRunning` | launcher/launch/LaunchTask.cpp:187-199 | Aborting a launch that runs only changes its state; when the step then fails, the steps are finalized, failure is signalled and the instance is marked as crashed. |
| `LaunchTasks.AbortBeforeStart` | launcher/launch/LaunchTask.cpp:175-186 | Put in front of any run, an abort gives a run in which the launch does the same, and ends up the same once it is started. |

## Left out

- Gateway.RecoversFrames: is about frames whose header and payload together stay below 2^31 bytes; longer ones end in the state `Stuck`, because the receiver truncates their length to 32 bits.
- Qt item models, signals, dialogs and the refresh of views after a change.
- UTF-8 conversion and file access; saved lists and archives are modelled as decoded text and sequences of named files.
- Qt's character tables: digits, white space, and letters or numbers are parameters of which only the ASCII part is assumed.
- Null and empty strings are told apart only where the source does, in the argument and result of cover().
- The case-insensitive variable names of Windows environments.
- Sockets, timers and TLS of the gateway, and what the handler of JSON messages sends or does to the connection.
- The text syntax of the group file; a group file is a map from group names to lists of instances, and one that cannot be parsed or has another version is unusable.
- The scan of the instance directories: its result, a list of distinct ids, is a parameter of a reload, as is the outcome of loading an instance.
- Play-time migration, directory watchers and the staging of new instances on disk.
- Where a moved or trashed file ends up: that the file system did or did not do something is a parameter.
- JarMerge.CreateModdedJar: has no mods that are folders, which the source itself takes to be unreachable; whether a file can be written depends on the file only.
- The inner work of launch steps, steps added after the start, the censor filter and the log model.
- The embedding of time traces and the JSON output of the ninja trace tool.
- Sharing of tree nodes: a child node in a Qt map is a value, and the model has one object for each, never shared.
- Which of several equal positions an unstable sort puts first: the positions that are sorted are distinct.
