/**
 How good the thread layout is: how many workers it uses, how few any layout without overlap can use, and when these
 are the same. Jobs are taken in the order of the layout, latest end first; durations may be zero or even negative.
 */
module NinjaLayout {
  import opened Text
  import opened NinjaTrace

  /** The jobs that are running at time x. */
  function Running(jobs: seq<Target>, x: int): set<nat> {
    set i: nat | i < |jobs| && jobs[i].start <= x < jobs[i].end
  }

  lemma {:induction false} Pigeonhole(s: set<nat>, f: seq<nat>, k: nat)
    requires forall i :: i in s ==> i < |f| && f[i] < k
    requires forall i, j :: i in s && j in s && i != j ==> f[i] != f[j]
    ensures |s| <= k
  {
    if k > 0 && s != {} {
      if i :| i in s && f[i] == k - 1 {
        Pigeonhole(s - {i}, f, k - 1);
      } else {
        Pigeonhole(s, f, k - 1);
      }
    }
  }

  lemma CardinalityMonotonic(a: set<nat>, b: set<nat>)
    requires a <= b
    ensures |a| <= |b|
  {
    assert b == a + (b - a);
  }

  // ---------- What the layout uses ----------

  /** The jobs placed before job j that start before it ends: their workers are not free for it. */
  function Earlier(jobs: seq<Target>, j: nat): set<nat>
    requires j < |jobs|
  {
    set i: nat | i < j && jobs[i].start < jobs[j].end
  }

  /** Jobs that keep job j off their workers are all on different ones. */
  lemma EarlierApart(jobs: seq<Target>, j: nat)
    requires LatestFirst(jobs) && j < |jobs|
    ensures |Earlier(jobs, j)| < |Workers(jobs)|
  {
    LayoutHolds(jobs);
    var tids := Tids(jobs);
    var s := Earlier(jobs, j) + {j};
    forall i, k | i in s && k in s && i != k ensures tids[i] != tids[k] {
      var first, second := if i < k then i else k, if i < k then k else i;
      assert jobs[first].start < jobs[j].end <= jobs[second].end;
    }
    Pigeonhole(s, tids, |Workers(jobs)|);
  }

  /** The last jobs on workers 0..m-1. */
  lemma {:induction false} LastJobs(jobs: seq<Target>, tids: seq<nat>, workers: seq<int>, m: nat) returns (s: set<nat>)
    requires Layout(jobs, tids, workers) && m <= |workers|
    ensures |s| == m
    ensures forall j :: j in s ==> j < |jobs| && tids[j] < m && jobs[j].start == workers[tids[j]]
  {
    s := {};
    if m > 0 {
      var rest := LastJobs(jobs, tids, workers, m - 1);
      assert HasLast(jobs, tids, workers, m - 1);
      var j: nat :| LastOn(jobs, tids, workers, m - 1, j);
      s := rest + {j};
    }
  }

  /** A worker is added only when the last jobs of all others are in the way. */
  lemma AllBusy(init: seq<Target>, job: Target)
    requires LatestFirst(init) && Free(Workers(init), job.end) == |Workers(init)|
    ensures |Workers(init)| <= |Earlier(init + [job], |init|)|
  {
    LayoutHolds(init);
    var s := LastJobs(init, Tids(init), Workers(init), |Workers(init)|);
    CardinalityMonotonic(s, Earlier(init + [job], |init|));
  }

  lemma EarlierInPrefix(jobs: seq<Target>, n: nat, j: nat)
    requires j < n <= |jobs|
    ensures Earlier(jobs[..n], j) == Earlier(jobs, j)
  {}

  lemma {:induction false} WorkersSuffice(jobs: seq<Target>, k: nat)
    requires LatestFirst(jobs) && forall j :: 0 <= j < |jobs| ==> |Earlier(jobs, j)| < k
    ensures |Workers(jobs)| <= k
  {
    if jobs == [] {
    } else {
      var n := |jobs| - 1;
      forall j | 0 <= j < n ensures |Earlier(jobs[..n], j)| < k {
        EarlierInPrefix(jobs, n, j);
      }
      WorkersSuffice(jobs[..n], k);
      assert jobs == jobs[..n] + [jobs[n]];
      if Free(Workers(jobs[..n]), jobs[n].end) == |Workers(jobs[..n])| {
        AllBusy(jobs[..n], jobs[n]);
      }
    }
  }

  /** The number of workers, for every list of sorted jobs: one more than the most that are in the way of a job. */
  lemma WorkersCount(jobs: seq<Target>, k: nat)
    requires LatestFirst(jobs)
    ensures |Workers(jobs)| <= k <==> forall j :: 0 <= j < |jobs| ==> |Earlier(jobs, j)| < k
  {
    forall j | 0 <= j < |jobs| ensures |Earlier(jobs, j)| < |Workers(jobs)| {
      EarlierApart(jobs, j);
    }
    if forall j :: 0 <= j < |jobs| ==> |Earlier(jobs, j)| < k {
      WorkersSuffice(jobs, k);
    }
  }

  // ---------- What any layout needs ----------

  ghost predicate FitsOn(jobs: seq<Target>, assignment: seq<nat>, k: nat) {
    |assignment| == |jobs| && OverlapFree(jobs, assignment) && forall i :: 0 <= i < |jobs| ==> assignment[i] < k
  }

  /** Can the jobs be laid out on k workers without overlap? */
  ghost predicate Suffices(jobs: seq<Target>, k: nat) {
    exists assignment :: FitsOn(jobs, assignment, k)
  }

  /** The jobs placed before job j that overlap it. */
  function Conflicts(jobs: seq<Target>, j: nat): set<nat>
    requires j < |jobs|
  {
    set i: nat | i < j && Overlap(jobs[i], jobs[j])
  }

  lemma ConflictsApart(jobs: seq<Target>, assignment: seq<nat>, k: nat, j: nat)
    requires LatestFirst(jobs) && FitsOn(jobs, assignment, k) && j < |jobs|
    ensures |Conflicts(jobs, j)| < k
  {
    var s := Conflicts(jobs, j) + {j};
    forall a, b | a in s && b in s && a != b ensures assignment[a] != assignment[b] {
      var first, second := if a < b then a else b, if a < b then b else a;
      assert Overlap(jobs[first], jobs[second]);
    }
    Pigeonhole(s, assignment, k);
  }

  lemma {:induction false} FreeNumber(s: set<nat>, f: seq<nat>, k: nat) returns (c: nat)
    requires |s| < k && forall i :: i in s ==> i < |f|
    ensures c < k && forall i :: i in s ==> f[i] != c
    decreases k
  {
    if i :| i in s && f[i] == k - 1 {
      var rest := set j | j in s && f[j] != k - 1;
      CardinalityMonotonic(rest, s - {i});
      c := FreeNumber(rest, f, k - 1);
    } else {
      c := k - 1;
    }
  }

  /** Giving every job a worker that no earlier overlapping job has. */
  lemma {:induction false} LayOut(jobs: seq<Target>, k: nat) returns (assignment: seq<nat>)
    requires forall j :: 0 <= j < |jobs| ==> |Conflicts(jobs, j)| < k
    ensures FitsOn(jobs, assignment, k)
  {
    if jobs == [] {
      assignment := [];
    } else {
      var n := |jobs| - 1;
      forall j | 0 <= j < n ensures Conflicts(jobs[..n], j) == Conflicts(jobs, j) {}
      var init := LayOut(jobs[..n], k);
      var c := FreeNumber(Conflicts(jobs, n), init, k);
      assignment := init + [c];
      forall i, j | 0 <= i < j < |jobs| && assignment[i] == assignment[j] ensures !Overlap(jobs[i], jobs[j]) {
        if j == n {
          assert i !in Conflicts(jobs, n);
        } else {
          assert !Overlap(jobs[..n][i], jobs[..n][j]);
        }
      }
    }
  }

  /** One more than the most earlier jobs that overlap a job. */
  function Needed(jobs: seq<Target>): nat {
    if jobs == [] then 0
    else
      var n := |jobs| - 1;
      var before, last := Needed(jobs[..n]), |Conflicts(jobs, n)| + 1;
      if before >= last then before else last
  }

  lemma {:induction false} NeededMeans(jobs: seq<Target>, k: nat)
    ensures Needed(jobs) <= k <==> forall j :: 0 <= j < |jobs| ==> |Conflicts(jobs, j)| < k
  {
    if jobs == [] {
    } else {
      var n := |jobs| - 1;
      NeededMeans(jobs[..n], k);
      forall j | 0 <= j < n ensures Conflicts(jobs[..n], j) == Conflicts(jobs, j) {}
    }
  }

  /** This is the smallest number of workers on which the jobs can be laid out. */
  lemma NeededIsMinimum(jobs: seq<Target>, k: nat)
    requires LatestFirst(jobs)
    ensures Suffices(jobs, k) <==> Needed(jobs) <= k
  {
    NeededMeans(jobs, k);
    if Suffices(jobs, k) {
      var assignment :| FitsOn(jobs, assignment, k);
      forall j | 0 <= j < |jobs| ensures |Conflicts(jobs, j)| < k {
        ConflictsApart(jobs, assignment, k, j);
      }
    }
    if Needed(jobs) <= k {
      var assignment := LayOut(jobs, k);
    }
  }

  // ---------- When the layout is optimal ----------

  predicate TakesTime(job: Target) {
    job.start < job.end
  }

  /** No layout without overlap, however chosen, uses fewer workers. */
  ghost predicate IsOptimal(jobs: seq<Target>) {
    forall k: nat :: Suffices(jobs, k) ==> |Workers(jobs)| <= k
  }

  /** For a job that takes time, the jobs in the way are those that overlap it. */
  lemma InTheWay(jobs: seq<Target>, j: nat)
    requires LatestFirst(jobs) && j < |jobs|
    ensures TakesTime(jobs[j]) ==> Earlier(jobs, j) == Conflicts(jobs, j)
  {}

  lemma OptimalMeans(jobs: seq<Target>)
    requires LatestFirst(jobs)
    ensures IsOptimal(jobs) <==> |Workers(jobs)| <= Needed(jobs)
  {
    NeededIsMinimum(jobs, Needed(jobs));
    forall k: nat | Suffices(jobs, k) ensures Needed(jobs) <= k {
      NeededIsMinimum(jobs, k);
    }
  }

  /** The layout is optimal if and only if no job without duration has too many jobs in its way. */
  lemma Optimal(jobs: seq<Target>)
    requires LatestFirst(jobs)
    ensures IsOptimal(jobs) <==>
            forall j :: 0 <= j < |jobs| && !TakesTime(jobs[j]) ==> |Earlier(jobs, j)| < Needed(jobs)
  {
    var k := Needed(jobs);
    WorkersCount(jobs, k);
    NeededMeans(jobs, k);
    OptimalMeans(jobs);
    forall j | 0 <= j < |jobs| && TakesTime(jobs[j]) ensures |Earlier(jobs, j)| < k {
      InTheWay(jobs, j);
    }
  }

  /** So it is for the trace of any log. */
  lemma TraceOptimal(log: seq<LogLine>, showAll: bool)
    ensures var jobs := Targets(log, showAll);
            IsOptimal(jobs) <==>
            forall j :: 0 <= j < |jobs| && !TakesTime(jobs[j]) ==> |Earlier(jobs, j)| < Needed(jobs)
  {
    SortByEndSorts(Jobs(Group(LastBuild(Builds(log), showAll))));
    Optimal(Targets(log, showAll));
  }

  // ---------- In terms of jobs running at once ----------

  /** Any assignment that keeps overlapping jobs apart needs as many workers as jobs run at once. */
  lemma DepthIsLowerBound(jobs: seq<Target>, assignment: seq<nat>, k: nat, x: int)
    requires FitsOn(jobs, assignment, k)
    ensures |Running(jobs, x)| <= k
  {
    forall i, j | i in Running(jobs, x) && j in Running(jobs, x) && i != j ensures assignment[i] != assignment[j] {
      if i < j {
        assert Overlap(jobs[i], jobs[j]);
      } else {
        assert Overlap(jobs[j], jobs[i]);
      }
    }
    Pigeonhole(Running(jobs, x), assignment, k);
  }

  ghost predicate RunAtOnce(jobs: seq<Target>, m: nat) {
    exists x :: |Running(jobs, x)| >= m
  }

  /** A job that takes time runs, just before its end, together with all that are in its way. */
  lemma RunningTogether(jobs: seq<Target>, j: nat)
    requires LatestFirst(jobs) && j < |jobs| && TakesTime(jobs[j])
    ensures |Running(jobs, jobs[j].end - 1)| > |Earlier(jobs, j)|
  {
    var x := jobs[j].end - 1;
    forall i | i in Earlier(jobs, j) ensures i in Running(jobs, x) {
      assert jobs[i].end >= jobs[j].end;
    }
    CardinalityMonotonic(Earlier(jobs, j) + {j}, Running(jobs, x));
  }

  /**
   There are never more jobs running at once than workers, and at some time there are as many, if and only if every job
   without duration has fewer in its way than run at once at some time.
   */
  lemma WorkersAreDepth(jobs: seq<Target>)
    requires LatestFirst(jobs)
    ensures forall x :: |Running(jobs, x)| <= |Workers(jobs)|
    ensures RunAtOnce(jobs, |Workers(jobs)|) <==>
            forall j :: 0 <= j < |jobs| && !TakesTime(jobs[j]) ==> RunAtOnce(jobs, |Earlier(jobs, j)| + 1)
  {
    NoOverlap(jobs);
    var k := |Workers(jobs)|;
    forall x ensures |Running(jobs, x)| <= k {
      DepthIsLowerBound(jobs, Tids(jobs), k, x);
    }
    WorkersCount(jobs, k);
    if jobs == [] {
      assert |Running(jobs, 0)| >= 0;
    } else if forall j :: 0 <= j < |jobs| && !TakesTime(jobs[j]) ==> RunAtOnce(jobs, |Earlier(jobs, j)| + 1) {
      assert k > 0;
      WorkersCount(jobs, k - 1);
      var j :| 0 <= j < |jobs| && |Earlier(jobs, j)| >= k - 1;
      if TakesTime(jobs[j]) {
        RunningTogether(jobs, j);
      } else {
        var x :| |Running(jobs, x)| >= |Earlier(jobs, j)| + 1;
      }
    }
  }

  /** The jobs that go on around a moment without duration. */
  function Around(jobs: seq<Target>, j: nat): set<nat>
    requires j < |jobs|
  {
    set i: nat | i < |jobs| && Overlap(jobs[i], jobs[j])
  }

  lemma AroundApart(jobs: seq<Target>, assignment: seq<nat>, k: nat, j: nat)
    requires FitsOn(jobs, assignment, k) && j < |jobs| && !TakesTime(jobs[j])
    ensures |Around(jobs, j)| < k
  {
    var s := Around(jobs, j) + {j};
    forall a, b | a in s && b in s && a != b ensures assignment[a] != assignment[b] {
      var first, second := if a < b then a else b, if a < b then b else a;
      assert Overlap(jobs[first], jobs[second]);
    }
    Pigeonhole(s, assignment, k);
  }

  /**
   The number needed does not depend on the order: it is the largest number of jobs that run at once, or that go on
   around a job without duration, with that job.
   */
  lemma NeededIsPeak(jobs: seq<Target>, k: nat)
    requires LatestFirst(jobs)
    ensures Needed(jobs) <= k <==>
            && (forall x :: |Running(jobs, x)| <= k)
            && (forall j :: 0 <= j < |jobs| && !TakesTime(jobs[j]) ==> |Around(jobs, j)| < k)
  {
    NeededIsMinimum(jobs, k);
    if Suffices(jobs, k) {
      var assignment :| FitsOn(jobs, assignment, k);
      forall x ensures |Running(jobs, x)| <= k {
        DepthIsLowerBound(jobs, assignment, k, x);
      }
      forall j | 0 <= j < |jobs| && !TakesTime(jobs[j]) ensures |Around(jobs, j)| < k {
        AroundApart(jobs, assignment, k, j);
      }
    }
    NeededMeans(jobs, k);
    forall j | 0 <= j < |jobs| ensures |Conflicts(jobs, j)| < |Running(jobs, jobs[j].end - 1)| ||
                                       (!TakesTime(jobs[j]) && |Conflicts(jobs, j)| <= |Around(jobs, j)|) {
      if TakesTime(jobs[j]) {
        InTheWay(jobs, j);
        RunningTogether(jobs, j);
      } else {
        CardinalityMonotonic(Conflicts(jobs, j), Around(jobs, j));
      }
    }
  }

  /** When every job takes time, the layout is optimal and uses as many workers as run at once at the busiest time. */
  lemma OptimalWithDurations(jobs: seq<Target>)
    requires LatestFirst(jobs) && forall j :: 0 <= j < |jobs| ==> TakesTime(jobs[j])
    ensures IsOptimal(jobs) && RunAtOnce(jobs, |Workers(jobs)|)
  {
    Optimal(jobs);
    WorkersAreDepth(jobs);
  }

  // ---------- A log for which it is not ----------

  const WASTING: seq<LogLine> :=
    [Build(Line(0, 5, [LOWER_A], [LOWER_A])), Build(Line(5, 5, [LOWER_Z], [LOWER_Z]))]

  lemma TwoBuilds(a: Line, b: Line, showAll: bool)
    requires a.end <= b.end
    ensures LastBuild(Builds([Build(a), Build(b)]), showAll) == [a, b]
  {
    var log := [Build(a), Build(b)];
    assert log[..1] == [Build(a)] && log[..1][..0] == [];
    assert Builds(log[..1]) == [a];
    assert Builds(log) == [a, b];
  }

  lemma TwoEntries(a: Line, b: Line)
    requires a.hash != b.hash
    ensures Jobs(Group([a, b])) == [Target(a.start, a.end, [a.name]), Target(b.start, b.end, [b.name])]
  {
    assert [a, b][..1] == [a] && [a][..0] == [];
    assert Group([a]) == [Entry(a.hash, Target(a.start, a.end, [a.name]))];
    assert Slot(Group([a]), b.hash) == 1;
  }

  lemma TwoSorted(a: Target, b: Target)
    requires a.end >= b.end
    ensures SortByEnd([a, b]) == [a, b]
  {
    var none: seq<Target> := [];
    assert [a, b][..1] == [a] && [a][..0] == none && [a][1..] == none;
    assert SortByEnd([a]) == Place(none, a) == [a] + none == [a];
    assert Place(none, b) == [b];
    assert Place([a], b) == [a] + [b];
  }

  lemma WastingTargets(showAll: bool)
    ensures Targets(WASTING, showAll) == [Target(0, 5, [[LOWER_A]]), Target(5, 5, [[LOWER_Z]])]
  {
    var a, b := Line(0, 5, [LOWER_A], [LOWER_A]), Line(5, 5, [LOWER_Z], [LOWER_Z]);
    TwoBuilds(a, b, showAll);
    TwoEntries(a, b);
    TwoSorted(Target(0, 5, [a.name]), Target(5, 5, [b.name]));
  }

  /** The job of length zero at the end of the other gets a worker of its own, though one would do. */
  lemma EmptyJobWastesAWorker(showAll: bool)
    ensures var jobs := Targets(WASTING, showAll); |Workers(jobs)| == 2 && Suffices(jobs, 1) && !IsOptimal(jobs)
  {
    WastingTargets(showAll);
    var jobs := Targets(WASTING, showAll);
    assert jobs[..1] == [jobs[0]] && jobs[..1][..0] == [];
    assert Workers(jobs[..1]) == [0];
    assert Free([0], 5) == 1;
    assert Workers(jobs) == [0] + [5];
    assert FitsOn(jobs, [0, 0], 1);
    var one: nat := 1;
    assert Suffices(jobs, one) && |Workers(jobs)| > one;
  }
}
