/**
 Reconstructing the parallelism of a build from its ninja log: which lines count, how they are grouped into jobs,
 and on how few worker threads the jobs are laid out. Times are whole milliseconds.
 */
module NinjaTrace {
  import opened Text

  // ---------- Reading the log ----------

  /** A line of the log: the header's kind, or one built output. */
  datatype LogLine = Comment | Build(line: Line)

  datatype Line = Line(start: int, end: int, name: QString, hash: QString)

  /** A job: everything one command built. */
  datatype Target = Target(start: int, end: int, targets: seq<QString>)

  /** One entry of the insertion-ordered dictionary of jobs. */
  datatype Entry = Entry(hash: QString, job: Target)

  function Builds(log: seq<LogLine>): seq<Line> {
    if log == [] then []
    else Builds(log[..|log| - 1]) + if log[|log| - 1].Build? then [log[|log| - 1].line] else []
  }

  /** Where the last build among the first k lines begins: where an end time last goes back. */
  function BuildStart(lines: seq<Line>, k: nat): (m: nat)
    requires k <= |lines|
    ensures m <= k && (k > 0 ==> m < k)
  {
    if k <= 1 then 0
    else if lines[k - 1].end < lines[k - 2].end then k - 1
    else BuildStart(lines, k - 1)
  }

  function LastBuild(lines: seq<Line>, showAll: bool): seq<Line> {
    lines[if showAll then 0 else BuildStart(lines, |lines|)..]
  }

  /** Index of the entry for a hash, or |entries|. */
  function Slot(entries: seq<Entry>, hash: QString): (i: nat)
    ensures i <= |entries|
    ensures i < |entries| ==> entries[i].hash == hash
    ensures i == |entries| ==> forall j :: 0 <= j < |entries| ==> entries[j].hash != hash
  {
    if entries == [] || entries[0].hash == hash then 0 else 1 + Slot(entries[1..], hash)
  }

  function AddLine(entries: seq<Entry>, line: Line): seq<Entry>
  {
    var i := Slot(entries, line.hash);
    if i == |entries| then entries + [Entry(line.hash, Target(line.start, line.end, [line.name]))]
    else
      var job := entries[i].job;
      entries[i := Entry(line.hash, job.(targets := job.targets + [line.name]))]
  }

  function Group(lines: seq<Line>): seq<Entry>
  {
    if lines == [] then [] else AddLine(Group(lines[..|lines| - 1]), lines[|lines| - 1])
  }

  function Jobs(entries: seq<Entry>): (r: seq<Target>)
    ensures |r| == |entries| && forall i :: 0 <= i < |r| ==> r[i] == entries[i].job
  {
    seq(|entries|, i requires 0 <= i < |entries| => entries[i].job)
  }

  /** Stable sort by end time, latest first. */
  function SortByEnd(jobs: seq<Target>): seq<Target> {
    if jobs == [] then [] else Place(SortByEnd(jobs[..|jobs| - 1]), jobs[|jobs| - 1])
  }

  function Place(sorted: seq<Target>, job: Target): seq<Target> {
    if sorted == [] || sorted[0].end < job.end then [job] + sorted else [sorted[0]] + Place(sorted[1..], job)
  }

  ghost predicate LatestFirst(jobs: seq<Target>) {
    forall i, j :: 0 <= i < j < |jobs| ==> jobs[i].end >= jobs[j].end
  }

  function Targets(log: seq<LogLine>, showAll: bool): seq<Target> {
    SortByEnd(Jobs(Group(LastBuild(Builds(log), showAll))))
  }

  /** What the reader holds after i lines of the log. */
  ghost predicate Reading(log: seq<LogLine>, i: nat, showAll: bool, entries: seq<Entry>, lastEndSeen: int)
    requires i <= |log|
  {
    entries == Group(LastBuild(Builds(log[..i]), showAll)) && lastEndSeen == LastEnd(Builds(log[..i]))
  }

  method ReadTargets(log: seq<LogLine>, showAll: bool) returns (targets: seq<Target>)
    ensures targets == Targets(log, showAll)
  {
    var entries: seq<Entry> := [];
    var lastEndSeen := 0;
    assert log[..0] == [];
    for i := 0 to |log|
      invariant Reading(log, i, showAll, entries, lastEndSeen)
    {
      ReadOne(log, i, showAll, entries, lastEndSeen);
      if log[i] == Comment {
        continue;
      }
      var line := log[i].line;
      if !showAll && line.end < lastEndSeen {
        entries := [];
      }
      lastEndSeen := line.end;
      entries := AddLine(entries, line);
    }
    assert log[..|log|] == log;
    targets := SortByEnd(Jobs(entries));
  }

  lemma ReadOne(log: seq<LogLine>, i: nat, showAll: bool, entries: seq<Entry>, lastEndSeen: int)
    requires i < |log| && Reading(log, i, showAll, entries, lastEndSeen)
    ensures log[i] == Comment ==> Reading(log, i + 1, showAll, entries, lastEndSeen)
    ensures log[i].Build? ==>
              var kept := if !showAll && log[i].line.end < lastEndSeen then [] else entries;
              Reading(log, i + 1, showAll, AddLine(kept, log[i].line), log[i].line.end)
  {
    BuildsSnoc(log, i);
    if log[i].Build? {
      GroupSnoc(Builds(log[..i]), log[i].line, showAll);
    }
  }

  function LastEnd(lines: seq<Line>): int {
    if lines == [] then 0 else lines[|lines| - 1].end
  }

  lemma BuildsSnoc(log: seq<LogLine>, i: nat)
    requires i < |log|
    ensures log[i] == Comment ==> Builds(log[..i + 1]) == Builds(log[..i])
    ensures log[i].Build? ==> Builds(log[..i + 1]) == Builds(log[..i]) + [log[i].line]
  {
    assert log[..i + 1][..i] == log[..i];
  }

  lemma {:induction false} BuildStartOfPrefix(lines: seq<Line>, line: Line, k: nat)
    requires k <= |lines|
    ensures BuildStart(lines + [line], k) == BuildStart(lines, k)
  {
    if k > 1 {
      BuildStartOfPrefix(lines, line, k - 1);
    }
  }

  lemma LastBuildSnoc(lines: seq<Line>, line: Line, showAll: bool)
    ensures LastBuild(lines + [line], showAll) ==
            (if !showAll && line.end < LastEnd(lines) then [] else LastBuild(lines, showAll)) + [line]
  {
    BuildStartOfPrefix(lines, line, |lines|);
    assert lines == [] ==> LastBuild(lines, showAll) == [];
  }

  lemma GroupSnoc(lines: seq<Line>, line: Line, showAll: bool)
    ensures Group(LastBuild(lines + [line], showAll)) ==
            AddLine(if !showAll && line.end < LastEnd(lines) then [] else Group(LastBuild(lines, showAll)), line)
  {
    LastBuildSnoc(lines, line, showAll);
    var kept := if !showAll && line.end < LastEnd(lines) then [] else LastBuild(lines, showAll);
    assert (kept + [line])[..|kept|] == kept;
  }

  lemma {:induction false} PlaceKeeps(sorted: seq<Target>, job: Target)
    ensures multiset(Place(sorted, job)) == multiset(sorted) + multiset{job}
  {
    if !(sorted == [] || sorted[0].end < job.end) {
      PlaceKeeps(sorted[1..], job);
      assert sorted == [sorted[0]] + sorted[1..];
    }
  }

  lemma {:induction false} PlaceSorts(sorted: seq<Target>, job: Target)
    requires LatestFirst(sorted)
    ensures LatestFirst(Place(sorted, job))
  {
    if !(sorted == [] || sorted[0].end < job.end) {
      PlaceSorts(sorted[1..], job);
      PlacedEndBefore(sorted[1..], job, sorted[0].end);
    }
  }

  lemma PlacedEndBefore(sorted: seq<Target>, job: Target, limit: int)
    requires job.end <= limit && forall k :: 0 <= k < |sorted| ==> sorted[k].end <= limit
    ensures forall k :: 0 <= k < |Place(sorted, job)| ==> Place(sorted, job)[k].end <= limit
  {}

  lemma {:induction false} SortByEndSorts(jobs: seq<Target>)
    ensures LatestFirst(SortByEnd(jobs)) && multiset(SortByEnd(jobs)) == multiset(jobs)
  {
    if jobs == [] {
    } else {
      SortByEndSorts(jobs[..|jobs| - 1]);
      PlaceSorts(SortByEnd(jobs[..|jobs| - 1]), jobs[|jobs| - 1]);
      PlaceKeeps(SortByEnd(jobs[..|jobs| - 1]), jobs[|jobs| - 1]);
      assert jobs == jobs[..|jobs| - 1] + [jobs[|jobs| - 1]];
    }
  }

  /** The last build is the longest run of lines at the end of the log whose end times never go back. */
  lemma {:induction false} LastBuildMeans(lines: seq<Line>, k: nat)
    requires k <= |lines|
    ensures var m := BuildStart(lines, k);
            && (forall i :: m < i < k ==> lines[i - 1].end <= lines[i].end)
            && (m > 0 ==> lines[m].end < lines[m - 1].end)
  {
    if k > 1 && lines[k - 1].end >= lines[k - 2].end {
      LastBuildMeans(lines, k - 1);
    }
  }

  // ---------- Conservation of output names ----------

  function Names(lines: seq<Line>): multiset<QString>
  {
    if lines == [] then multiset{} else Names(lines[..|lines| - 1]) + multiset{lines[|lines| - 1].name}
  }

  function AllTargets(entries: seq<Entry>): multiset<QString> {
    if entries == [] then multiset{}
    else AllTargets(entries[..|entries| - 1]) + multiset(entries[|entries| - 1].job.targets)
  }

  lemma {:induction false} UpdateTargets(entries: seq<Entry>, i: nat, e: Entry, name: QString)
    requires i < |entries| && e.job.targets == entries[i].job.targets + [name]
    ensures AllTargets(entries[i := e]) == AllTargets(entries) + multiset{name}
  {
    var n := |entries| - 1;
    if i == n {
      assert entries[i := e][..n] == entries[..n];
    } else {
      UpdateTargets(entries[..n], i, e, name);
      assert entries[i := e][..n] == entries[..n][i := e];
    }
  }

  ghost predicate DistinctHashes(entries: seq<Entry>) {
    forall i, j :: 0 <= i < j < |entries| ==> entries[i].hash != entries[j].hash
  }

  /** Index of the first line with a hash, or |lines|. */
  function FirstLine(lines: seq<Line>, hash: QString): (i: nat)
    ensures i <= |lines| && (i < |lines| ==> lines[i].hash == hash)
    ensures forall j :: 0 <= j < i ==> lines[j].hash != hash
  {
    if lines == [] then 0
    else
      var i := FirstLine(lines[..|lines| - 1], hash);
      if i < |lines| - 1 || lines[|lines| - 1].hash == hash then i else |lines|
  }

  lemma {:induction false} GroupHashes(lines: seq<Line>)
    ensures DistinctHashes(Group(lines))
    ensures forall hash :: Slot(Group(lines), hash) < |Group(lines)| <==> FirstLine(lines, hash) < |lines|
  {
    if lines == [] {
    } else {
      var n := |lines| - 1;
      GroupHashes(lines[..n]);
      var before, after, hash := Group(lines[..n]), Group(lines), lines[n].hash;
      var k := Slot(before, hash);
      forall h ensures Slot(after, h) < |after| <==> FirstLine(lines, h) < |lines| {
        SameSlots(before, after, k, h, hash);
      }
    }
  }

  lemma SameSlots(before: seq<Entry>, after: seq<Entry>, k: nat, h: QString, hash: QString)
    requires k == Slot(before, hash) && k < |after| && after[k].hash == hash
    requires |after| == if k < |before| then |before| else |before| + 1
    requires forall i :: 0 <= i < |before| ==> after[i].hash == before[i].hash
    ensures Slot(after, h) < |after| <==> Slot(before, h) < |before| || h == hash
  {}

  /** Every output of every line ends up in exactly one job. */
  lemma {:induction false} GroupKeepsNames(lines: seq<Line>)
    ensures AllTargets(Group(lines)) == Names(lines)
  {
    if lines == [] {
    } else {
      var n := |lines| - 1;
      GroupKeepsNames(lines[..n]);
      var before, after := Group(lines[..n]), Group(lines);
      var k := Slot(before, lines[n].hash);
      if k < |before| {
        UpdateTargets(before, k, after[k], lines[n].name);
      } else {
        assert after[..|before|] == before;
      }
    }
  }

  /** A job has the times of the first line with its hash. */
  lemma {:induction false} GroupTimes(lines: seq<Line>, i: nat)
    requires i < |Group(lines)|
    ensures var first := FirstLine(lines, Group(lines)[i].hash);
            && first < |lines|
            && Group(lines)[i].job.start == lines[first].start && Group(lines)[i].job.end == lines[first].end
  {
    var n := |lines| - 1;
    var before, hash := Group(lines[..n]), lines[n].hash;
    if i < |before| {
      GroupTimes(lines[..n], i);
    } else {
      GroupHashes(lines[..n]);
      assert FirstLine(lines[..n], hash) == n;
    }
  }

  /** The names of the lines with one hash, in the order of the lines. */
  function NamesOf(lines: seq<Line>, hash: QString): seq<QString> {
    if lines == [] then []
    else (if lines[0].hash == hash then [lines[0].name] else []) + NamesOf(lines[1..], hash)
  }

  lemma {:induction false} NamesOfSnoc(lines: seq<Line>, line: Line, hash: QString)
    ensures NamesOf(lines + [line], hash) == NamesOf(lines, hash) + if line.hash == hash then [line.name] else []
  {
    if lines == [] {
      assert lines + [line] == [line] && [line][1..] == [];
    } else {
      var all := lines + [line];
      assert all[0] == lines[0] && all[1..] == lines[1..] + [line];
      NamesOfSnoc(lines[1..], line, hash);
      AppendAssociative(if lines[0].hash == hash then [lines[0].name] else [], NamesOf(lines[1..], hash),
                        if line.hash == hash then [line.name] else []);
    }
  }

  lemma {:induction false} NoNames(lines: seq<Line>, hash: QString)
    requires forall i :: 0 <= i < |lines| ==> lines[i].hash != hash
    ensures NamesOf(lines, hash) == []
  {
    if lines == [] {
    } else {
      NoNames(lines[1..], hash);
    }
  }

  /** A job has the outputs of exactly the lines with its hash, in the order of the log. */
  lemma {:induction false} GroupTargets(lines: seq<Line>, i: nat)
    requires i < |Group(lines)|
    ensures Group(lines)[i].job.targets == NamesOf(lines, Group(lines)[i].hash)
  {
    var n := |lines| - 1;
    var before, hash := Group(lines[..n]), lines[n].hash;
    assert lines == lines[..n] + [lines[n]];
    GroupHashes(lines[..n]);
    NamesOfSnoc(lines[..n], lines[n], Group(lines)[i].hash);
    if i < |before| {
      GroupTargets(lines[..n], i);
      assert before[i].hash == hash <==> i == Slot(before, hash);
    } else {
      NoNames(lines[..n], hash);
    }
  }

  /** The jobs come in the order in which their hashes first occur. */
  lemma {:induction false} GroupOrder(lines: seq<Line>, i: nat, j: nat)
    requires i < j < |Group(lines)|
    ensures FirstLine(lines, Group(lines)[i].hash) < FirstLine(lines, Group(lines)[j].hash)
  {
    var n := |lines| - 1;
    var before, hash := Group(lines[..n]), lines[n].hash;
    GroupHashes(lines[..n]);
    GroupTimes(lines, i);
    GroupTimes(lines, j);
    if j < |before| {
      GroupTimes(lines[..n], i);
      GroupTimes(lines[..n], j);
      GroupOrder(lines[..n], i, j);
    } else {
      GroupTimes(lines[..n], i);
    }
  }

  /** The build lines of a log, in order. */
  lemma {:induction false} BuildsMean(before: seq<LogLine>, line: Line, after: seq<LogLine>)
    ensures Builds(before + [Build(line)] + after) == Builds(before) + [line] + Builds(after)
    ensures Builds(before + [Comment] + after) == Builds(before) + Builds(after)
  {
    BuildsAppend(before + [Build(line)], after);
    BuildsAppend(before, [Build(line)]);
    BuildsAppend(before + [Comment], after);
    BuildsAppend(before, [Comment]);
    assert [Build(line)][..0] == [] && [Comment][..0] == [] && Builds(before) + [] == Builds(before);
    assert Builds([Build(line)]) == [line] && Builds([Comment]) == [];
  }

  lemma {:induction false} BuildsAppend(a: seq<LogLine>, b: seq<LogLine>)
    ensures Builds(a + b) == Builds(a) + Builds(b)
  {
    if b == [] {
      assert a + b == a && Builds(a) + [] == Builds(a);
    } else {
      var n := |b| - 1;
      assert (a + b)[..|a + b| - 1] == a + b[..n];
      BuildsAppend(a, b[..n]);
      AppendAssociative(Builds(a), Builds(b[..n]), if b[n].Build? then [b[n].line] else []);
    }
  }

  /** The jobs that end at one time. */
  function EndingAt(jobs: seq<Target>, end: int): seq<Target> {
    if jobs == [] then [] else (if jobs[0].end == end then [jobs[0]] else []) + EndingAt(jobs[1..], end)
  }

  lemma {:induction false} EndingAtSnoc(jobs: seq<Target>, job: Target, end: int)
    ensures EndingAt(jobs + [job], end) == EndingAt(jobs, end) + if job.end == end then [job] else []
  {
    if jobs == [] {
      assert jobs + [job] == [job] && [job][1..] == [];
    } else {
      var all := jobs + [job];
      assert all[0] == jobs[0] && all[1..] == jobs[1..] + [job];
      EndingAtSnoc(jobs[1..], job, end);
      AppendAssociative(if jobs[0].end == end then [jobs[0]] else [], EndingAt(jobs[1..], end),
                        if job.end == end then [job] else []);
    }
  }

  lemma {:induction false} NoneEndsAt(jobs: seq<Target>, end: int)
    requires forall i :: 0 <= i < |jobs| ==> jobs[i].end != end
    ensures EndingAt(jobs, end) == []
  {
    if jobs == [] {
    } else {
      NoneEndsAt(jobs[1..], end);
    }
  }

  lemma {:induction false} PlaceIsStable(sorted: seq<Target>, job: Target, end: int)
    requires LatestFirst(sorted)
    ensures EndingAt(Place(sorted, job), end) == EndingAt(sorted, end) + if job.end == end then [job] else []
  {
    if sorted == [] || sorted[0].end < job.end {
      assert ([job] + sorted)[1..] == sorted;
      if job.end == end {
        NoneEndsAt(sorted, end);
      }
    } else {
      PlaceIsStable(sorted[1..], job, end);
      assert ([sorted[0]] + Place(sorted[1..], job))[1..] == Place(sorted[1..], job);
    }
  }

  /** Jobs that end at the same time stay in order. */
  lemma {:induction false} SortByEndIsStable(jobs: seq<Target>, end: int)
    ensures EndingAt(SortByEnd(jobs), end) == EndingAt(jobs, end)
  {
    if jobs == [] {
    } else {
      var n := |jobs| - 1;
      SortByEndIsStable(jobs[..n], end);
      StableStep(jobs[..n], jobs[n], end);
      assert jobs == jobs[..n] + [jobs[n]];
    }
  }

  lemma StableStep(init: seq<Target>, job: Target, end: int)
    requires EndingAt(SortByEnd(init), end) == EndingAt(init, end)
    ensures EndingAt(Place(SortByEnd(init), job), end) == EndingAt(init + [job], end)
  {
    SortByEndSorts(init);
    PlaceIsStable(SortByEnd(init), job, end);
    EndingAtSnoc(init, job, end);
  }

  // ---------- Allocation ----------

  /** The first worker that is free from the job's end on; |workers| when there is none. */
  function Free(workers: seq<int>, end: int): (w: nat)
    ensures w <= |workers|
    ensures w < |workers| ==> workers[w] >= end
    ensures forall v :: 0 <= v < w ==> workers[v] < end
  {
    if workers == [] || workers[0] >= end then 0 else 1 + Free(workers[1..], end)
  }

  function Occupy(workers: seq<int>, job: Target): seq<int> {
    var w := Free(workers, job.end);
    if w < |workers| then workers[w := job.start] else workers + [job.start]
  }

  class Threads {
    var workers: seq<int>

    constructor ()
      ensures workers == []
    {
      workers := [];
    }

    method Alloc(target: Target) returns (tid: nat)
      modifies this
      ensures tid == Free(old(workers), target.end)
      ensures workers == Occupy(old(workers), target)
    {
      for worker := 0 to |workers|
        invariant workers == old(workers)
        invariant forall v :: 0 <= v < worker ==> workers[v] < target.end
      {
        if workers[worker] >= target.end {
          workers := workers[worker := target.start];
          return worker;
        }
      }
      workers := workers + [target.start];
      return |workers| - 1;
    }
  }

  /** The workers' times after the jobs have been placed in order. */
  function Workers(jobs: seq<Target>): seq<int> {
    if jobs == [] then [] else Occupy(Workers(jobs[..|jobs| - 1]), jobs[|jobs| - 1])
  }

  /** The worker of each job. */
  function Tids(jobs: seq<Target>): (r: seq<nat>)
    ensures |r| == |jobs|
  {
    if jobs == [] then []
    else Tids(jobs[..|jobs| - 1]) + [Free(Workers(jobs[..|jobs| - 1]), jobs[|jobs| - 1].end)]
  }

  method LogToTids(log: seq<LogLine>, showAll: bool) returns (targets: seq<Target>, tids: seq<nat>)
    ensures targets == Targets(log, showAll)
    ensures tids == Tids(targets) && OverlapFree(targets, tids)
  {
    targets := ReadTargets(log, showAll);
    tids := AllocAll(targets);
    SortByEndSorts(Jobs(Group(LastBuild(Builds(log), showAll))));
    NoOverlap(targets);
  }

  /** The loop of log_to_dicts. */
  method AllocAll(targets: seq<Target>) returns (tids: seq<nat>)
    ensures tids == Tids(targets)
  {
    var threads := new Threads();
    tids := [];
    for i := 0 to |targets|
      invariant tids == Tids(targets[..i]) && threads.workers == Workers(targets[..i])
    {
      assert targets[..i + 1][..i] == targets[..i];
      var tid := threads.Alloc(targets[i]);
      tids := tids + [tid];
    }
    assert targets[..|targets|] == targets;
  }

  // ---------- The layout is overlap-free and optimal ----------

  predicate Overlap(a: Target, b: Target) {
    a.start < b.end && b.start < a.end
  }

  ghost predicate OverlapFree(jobs: seq<Target>, assignment: seq<nat>)
    requires |assignment| == |jobs|
  {
    forall i, j :: 0 <= i < j < |jobs| && assignment[i] == assignment[j] ==> !Overlap(jobs[i], jobs[j])
  }

  /** Job j is the last one placed on worker w, whose time is its start. */
  ghost predicate LastOn(jobs: seq<Target>, tids: seq<nat>, workers: seq<int>, w: int, j: nat)
    requires |tids| == |jobs| && 0 <= w < |workers|
  {
    && j < |jobs| && tids[j] == w && workers[w] == jobs[j].start
    && forall i :: j < i < |jobs| ==> tids[i] != w
  }

  ghost predicate HasLast(jobs: seq<Target>, tids: seq<nat>, workers: seq<int>, w: int)
    requires |tids| == |jobs| && 0 <= w < |workers|
  {
    exists j: nat :: LastOn(jobs, tids, workers, w, j)
  }

  ghost predicate Layout(jobs: seq<Target>, tids: seq<nat>, workers: seq<int>) {
    && |tids| == |jobs|
    && (forall i :: 0 <= i < |jobs| ==> tids[i] < |workers|)
    && (forall w :: 0 <= w < |workers| ==> HasLast(jobs, tids, workers, w))
    && (forall i, j :: 0 <= i < j < |jobs| && tids[i] == tids[j] ==> jobs[j].end <= jobs[i].start)
  }

  lemma LayoutSnoc(init: seq<Target>, job: Target)
    requires Layout(init, Tids(init), Workers(init)) && LatestFirst(init + [job])
    ensures Layout(init + [job], Tids(init) + [Free(Workers(init), job.end)], Occupy(Workers(init), job))
  {
    var w := Free(Workers(init), job.end);
    if w < |Workers(init)| {
      LayoutReuse(init, Tids(init), Workers(init), job, w);
    } else {
      LayoutGrow(init, Tids(init), Workers(init), job);
    }
  }

  lemma {:induction false} LayoutHolds(jobs: seq<Target>)
    requires LatestFirst(jobs)
    ensures Layout(jobs, Tids(jobs), Workers(jobs))
  {
    if jobs == [] {
    } else {
      var n := |jobs| - 1;
      LayoutHolds(jobs[..n]);
      assert jobs == jobs[..n] + [jobs[n]];
      LayoutSnoc(jobs[..n], jobs[n]);
    }
  }

  lemma LayoutReuse(init: seq<Target>, tids: seq<nat>, workers: seq<int>, job: Target, w: nat)
    requires Layout(init, tids, workers) && LatestFirst(init + [job])
    requires w < |workers| && workers[w] >= job.end
    ensures Layout(init + [job], tids + [w], workers[w := job.start])
  {
    var n, jobs, tids', workers' := |init|, init + [job], tids + [w], workers[w := job.start];
    forall v | 0 <= v < |workers| ensures HasLast(jobs, tids', workers', v) {
      if v == w {
        assert LastOn(jobs, tids', workers', v, n);
      } else {
        assert HasLast(init, tids, workers, v);
        var j: nat :| LastOn(init, tids, workers, v, j);
        assert LastOn(jobs, tids', workers', v, j);
      }
    }
    assert HasLast(init, tids, workers, w);
    var j: nat :| LastOn(init, tids, workers, w, j);
    forall i | 0 <= i < n && tids[i] == w ensures job.end <= init[i].start {
      assert jobs[j].end >= jobs[n].end;
    }
  }

  lemma LayoutGrow(init: seq<Target>, tids: seq<nat>, workers: seq<int>, job: Target)
    requires Layout(init, tids, workers)
    ensures Layout(init + [job], tids + [|workers|], workers + [job.start])
  {
    var n, jobs, tids', workers' := |init|, init + [job], tids + [|workers|], workers + [job.start];
    forall v | 0 <= v < |workers'| ensures HasLast(jobs, tids', workers', v) {
      if v == |workers| {
        assert LastOn(jobs, tids', workers', v, n);
      } else {
        assert HasLast(init, tids, workers, v);
        var j: nat :| LastOn(init, tids, workers, v, j);
        assert LastOn(jobs, tids', workers', v, j);
      }
    }
  }

  /**
   The layout of sorted jobs never puts two overlapping jobs on one worker, whatever their durations.
   */
  lemma NoOverlap(jobs: seq<Target>)
    requires LatestFirst(jobs)
    ensures OverlapFree(jobs, Tids(jobs))
    ensures forall i :: 0 <= i < |jobs| ==> Tids(jobs)[i] < |Workers(jobs)|
  {
    LayoutHolds(jobs);
  }
}
