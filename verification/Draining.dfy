/** The backlog of the import worker as a set of queued jobs and a list of
    identifiers, and what fault-free iterations of the worker's loop make of
    it when some of the jobs can never be finished. */
module Draining {
  import opened Storage

  datatype Backlog = Backlog(jobs: set<JobId>, queue: seq<JobId>)

  function Size(b: Backlog): nat {
    |b.jobs| + |b.queue|
  }

  ghost predicate IsLeast(jobs: set<JobId>, m: JobId) {
    m in jobs && forall j :: j in jobs ==> m <= j
  }

  /** One iteration. The identifier at the head of the list is dropped, or its
      job finished, or put back; unless a job was finished the oldest job is
      tried next. Jobs outside good cannot be finished. */
  ghost predicate Iterates(good: set<JobId>, b: Backlog, after: Backlog) {
    if b.queue != [] && b.queue[0] in b.jobs && b.queue[0] in good then
      after == Backlog(b.jobs - {b.queue[0]}, b.queue[1..])
    else
      && after.queue == (if b.queue == [] then []
                         else if b.queue[0] in b.jobs then b.queue[1..] + [b.queue[0]]
                         else b.queue[1..])
      && (b.jobs == {} ==> after.jobs == {})
      && forall m :: IsLeast(b.jobs, m) ==> after.jobs == if m in good then b.jobs - {m} else b.jobs
  }

  /** history lists the backlog before each iteration and after the last. */
  ghost predicate IsRun(good: set<JobId>, history: seq<Backlog>) {
    history != [] && forall i :: 0 <= i < |history| - 1 ==> Iterates(good, history[i], history[i + 1])
  }

  lemma RunExtends(good: set<JobId>, history: seq<Backlog>, b: Backlog)
    requires IsRun(good, history) && Iterates(good, history[|history| - 1], b)
    ensures IsRun(good, history + [b])
  {
  }

  lemma {:induction false} LeastExists(jobs: set<JobId>)
    requires jobs != {}
    ensures exists m :: IsLeast(jobs, m)
  {
    var j :| j in jobs;
    var rest := jobs - {j};
    assert forall i :: i in jobs <==> i in rest || i == j;
    if rest == {} {
      assert IsLeast(jobs, j);
    } else {
      LeastExists(rest);
      var m :| IsLeast(rest, m);
      assert IsLeast(jobs, if j < m then j else m);
    }
  }

  /** An iteration finishes good jobs only, and leaves no job that it finishes. */
  lemma JobsAfter(good: set<JobId>, b: Backlog, after: Backlog)
    requires Iterates(good, b, after)
    ensures after.jobs <= b.jobs && b.jobs - after.jobs <= good
  {
    if b.jobs != {} {
      LeastExists(b.jobs);
      var m :| IsLeast(b.jobs, m);
    }
  }

  // ---------------------------------------------------------------------
  // Jobs that are never finished
  // ---------------------------------------------------------------------

  /** The job can be reached: it is in the list, or no older job is in the way. */
  ghost predicate Reachable(good: set<JobId>, b: Backlog, j: JobId) {
    j in b.queue || forall i :: i in b.jobs && i < j ==> i in good
  }

  lemma StuckStaysStuck(good: set<JobId>, b: Backlog, after: Backlog, j: JobId)
    requires Iterates(good, b, after) && j in b.jobs && !(j in good && Reachable(good, b, j))
    ensures j in after.jobs && !(j in good && Reachable(good, after, j))
  {
    JobsAfter(good, b, after);
    assert forall i :: i in after.queue ==> i in b.queue;
    if j in good {
      LeastExists(b.jobs);
      var i :| i in b.jobs && i < j && i !in good;
      assert i in after.jobs;
    }
  }

  lemma {:induction false} StuckForEver(good: set<JobId>, history: seq<Backlog>, j: JobId)
    requires IsRun(good, history) && j in history[0].jobs
    requires !(j in good && Reachable(good, history[0], j))
    ensures j in history[|history| - 1].jobs
    ensures !(j in good && Reachable(good, history[|history| - 1], j))
  {
    var last := |history| - 1;
    if last > 0 {
      StuckForEver(good, history[..last], j);
      StuckStaysStuck(good, history[last - 1], history[last], j);
    }
  }

  // ---------------------------------------------------------------------
  // Jobs that are finished
  // ---------------------------------------------------------------------

  /** A good job in the list moves one place forward or is finished. */
  lemma ListedMovesUp(good: set<JobId>, b: Backlog, after: Backlog, j: JobId, k: nat)
    requires Iterates(good, b, after) && j in good && k < |b.queue| && b.queue[k] == j
    ensures j in after.jobs ==> k > 0 && k - 1 < |after.queue| && after.queue[k - 1] == j
  {
    JobsAfter(good, b, after);
  }

  lemma {:induction false} ListedIsFinished(good: set<JobId>, history: seq<Backlog>, j: JobId, k: nat)
    requires IsRun(good, history) && j in good && k < |history[0].queue| && history[0].queue[k] == j
    ensures var n, after := |history| - 1, history[|history| - 1];
      j in after.jobs ==> n <= k && k - n < |after.queue| && after.queue[k - n] == j
  {
    var last := |history| - 1;
    if last > 0 {
      ListedIsFinished(good, history[..last], j, k);
      JobsAfter(good, history[last - 1], history[last]);
      if j in history[last].jobs {
        ListedMovesUp(good, history[last - 1], history[last], j, k - (last - 1));
      }
    }
  }

  /** Entries of the list that are not stuck there. */
  function Loose(queue: seq<JobId>, stuck: set<JobId>): nat {
    if queue == [] then 0
    else Loose(queue[..|queue| - 1], stuck) + if queue[|queue| - 1] in stuck then 0 else 1
  }

  lemma {:induction false} LooseHead(queue: seq<JobId>, stuck: set<JobId>)
    requires queue != []
    ensures Loose(queue, stuck) == Loose(queue[1..], stuck) + if queue[0] in stuck then 0 else 1
  {
    if |queue| > 1 {
      LooseHead(queue[..|queue| - 1], stuck);
      assert queue[..|queue| - 1][1..] == queue[1..][..|queue| - 2];
    }
  }

  lemma {:induction false} LooseBound(queue: seq<JobId>, stuck: set<JobId>)
    ensures Loose(queue, stuck) <= |queue|
  {
    if queue != [] {
      LooseBound(queue[..|queue| - 1], stuck);
    }
  }

  ghost function UpTo(jobs: set<JobId>, j: JobId): set<JobId> {
    set i | i in jobs && i <= j
  }

  /** Iterations that job j can still be kept waiting. */
  ghost function Wait(good: set<JobId>, b: Backlog, j: JobId): nat {
    Loose(b.queue, b.jobs - good) + |UpTo(b.jobs, j)|
  }

  lemma RotatedIsAsLoose(queue: seq<JobId>, stuck: set<JobId>)
    requires queue != []
    ensures Loose(queue[1..] + [queue[0]], stuck) == Loose(queue, stuck)
  {
    var rotated := queue[1..] + [queue[0]];
    LooseHead(queue, stuck);
    assert rotated[..|rotated| - 1] == queue[1..] && rotated[|rotated| - 1] == queue[0];
  }

  lemma UpToShrinks(jobs: set<JobId>, after: set<JobId>, j: JobId)
    requires after <= jobs
    ensures |UpTo(after, j)| <= |UpTo(jobs, j)|
    ensures forall m :: m in jobs && m <= j && m !in after ==> |UpTo(after, j)| < |UpTo(jobs, j)|
  {
    var gone := UpTo(jobs, j) - UpTo(after, j);
    assert UpTo(jobs, j) == UpTo(after, j) + gone;
    assert |UpTo(jobs, j)| == |UpTo(after, j)| + |gone|;
    forall m | m in jobs && m <= j && m !in after
      ensures |gone| > 0
    {
      assert m in gone;
    }
  }

  lemma WaitShrinks(good: set<JobId>, b: Backlog, after: Backlog, j: JobId)
    requires Iterates(good, b, after) && j in b.jobs
    requires forall i :: i in b.jobs && i <= j ==> i in good
    ensures Wait(good, after, j) < Wait(good, b, j)
  {
    JobsAfter(good, b, after);
    UpToShrinks(b.jobs, after.jobs, j);
    assert after.jobs - good == b.jobs - good;
    LeastExists(b.jobs);
    var m :| IsLeast(b.jobs, m);
    if b.queue != [] {
      LooseHead(b.queue, b.jobs - good);
      if b.queue[0] in b.jobs {
        RotatedIsAsLoose(b.queue, b.jobs - good);
      }
    }
  }

  lemma {:induction false} WaitRunsOut(good: set<JobId>, history: seq<Backlog>, j: JobId)
    requires IsRun(good, history)
    requires forall i :: i in history[0].jobs && i <= j ==> i in good
    ensures var after := history[|history| - 1];
      && after.jobs <= history[0].jobs
      && (j in after.jobs ==> Wait(good, after, j) <= Wait(good, history[0], j) - (|history| - 1))
  {
    var last := |history| - 1;
    if last > 0 {
      WaitRunsOut(good, history[..last], j);
      JobsAfter(good, history[last - 1], history[last]);
      if j in history[last].jobs {
        WaitShrinks(good, history[last - 1], history[last], j);
      }
    }
  }

  lemma WaitBounds(good: set<JobId>, b: Backlog, j: JobId)
    ensures Wait(good, b, j) <= Size(b)
    ensures j in b.jobs ==> Wait(good, b, j) >= 1
  {
    LooseBound(b.queue, b.jobs - good);
    assert b.jobs == UpTo(b.jobs, j) + (b.jobs - UpTo(b.jobs, j));
    assert |b.jobs| == |UpTo(b.jobs, j)| + |b.jobs - UpTo(b.jobs, j)|;
    assert j in b.jobs ==> j in UpTo(b.jobs, j);
  }

  /** After as many iterations as the backlog is large a job is finished if and
      only if it can be, and it is in the list or no older job is stuck. */
  lemma {:induction false} FinishedExactly(good: set<JobId>, history: seq<Backlog>, j: JobId)
    requires IsRun(good, history) && j in history[0].jobs && |history| > Size(history[0])
    ensures j !in history[|history| - 1].jobs <==> j in good && Reachable(good, history[0], j)
  {
    if !(j in good && Reachable(good, history[0], j)) {
      StuckForEver(good, history, j);
    } else if j in history[0].queue {
      var k :| 0 <= k < |history[0].queue| && history[0].queue[k] == j;
      ListedIsFinished(good, history, j, k);
    } else {
      WaitRunsOut(good, history, j);
      WaitBounds(good, history[0], j);
      WaitBounds(good, history[|history| - 1], j);
    }
  }
}
