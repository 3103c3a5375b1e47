/** Concurrent reads under a byte budget. */
module FetchWorkers {
  /**
   Source: apps/control-plane/src/repository-index-service.ts:745-793.

   The workers are a state machine: each step runs one worker from one suspension point to
   the next.  An idle worker claims the shared cursor and starts a fetch or returns; a
   fetching worker stores its result and becomes idle.
   */
  import opened Wrappers
  import opened Texts

  datatype FileRead =
    | Loaded(content: Text, byteLength: nat)
    | Oversized
    | Binary
    | Missing
    | FetchFailed
    | ByteBudget

  // ----- the worker pool

  datatype Worker = Idle | Fetching(index: nat) | Returned

  datatype Pool = Pool(nextIndex: nat, workers: seq<Worker>, results: seq<Option<FileRead>>, claims: seq<nat>)

  function Start(workerCount: nat, n: nat): Pool {
    Pool(0, seq(workerCount, _ => Idle), seq(n, _ => None), [])
  }

  predicate Enabled(p: Pool, w: nat) {
    w < |p.workers| && p.workers[w] != Returned && (p.workers[w].Fetching? ==> p.workers[w].index < |p.results|)
  }

  /** Worker w runs to its next suspension point. */
  function Step(p: Pool, w: nat, answers: seq<FileRead>): Pool
    requires Enabled(p, w) && |p.results| == |answers|
  {
    match p.workers[w]
    case Idle =>
      if p.nextIndex < |answers| then
        p.(nextIndex := p.nextIndex + 1, workers := p.workers[w := Fetching(p.nextIndex)],
           claims := p.claims + [p.nextIndex])
      else
        p.(nextIndex := p.nextIndex + 1, workers := p.workers[w := Returned])
    case Fetching(i) =>
      p.(workers := p.workers[w := Idle], results := p.results[i := Some(answers[i])])
  }

  ghost predicate FetchedBy(p: Pool, i: nat) {
    exists w :: 0 <= w < |p.workers| && p.workers[w] == Fetching(i)
  }

  /** Claims are the indices 0, 1, 2, ... in order, and a claimed index is being fetched by one
      worker or already holds its own read. */
  ghost predicate Sound(p: Pool, answers: seq<FileRead>) {
    && |p.results| == |answers|
    && |p.claims| == Min(p.nextIndex, |answers|)
    && (forall k :: 0 <= k < |p.claims| ==> p.claims[k] == k)
    && (forall w :: 0 <= w < |p.workers| && p.workers[w].Fetching? ==> p.workers[w].index < |p.claims|)
    && (forall i: nat :: i < |p.claims| ==> p.results[i] == Some(answers[i]) || FetchedBy(p, i))
    && (forall i: nat :: i < |answers| && p.results[i].Some? ==> i < |p.claims| && p.results[i] == Some(answers[i]))
    && (forall w :: 0 <= w < |p.workers| && p.workers[w] == Returned ==> |p.claims| == |answers|)
  }

  lemma StartSound(workerCount: nat, answers: seq<FileRead>)
    ensures Sound(Start(workerCount, |answers|), answers)
  {
  }

  lemma ClaimKeepsSound(p: Pool, w: nat, answers: seq<FileRead>)
    requires Sound(p, answers) && Enabled(p, w) && p.workers[w] == Idle
    ensures Sound(Step(p, w, answers), answers)
  {
    var q := Step(p, w, answers);
    forall i: nat | i < |q.claims|
      ensures q.results[i] == Some(answers[i]) || FetchedBy(q, i)
    {
      if i == |p.claims| {
        assert q.workers[w] == Fetching(i);
      } else if p.results[i] != Some(answers[i]) {
        var v :| 0 <= v < |p.workers| && p.workers[v] == Fetching(i);
        assert q.workers[v] == Fetching(i);
      }
    }
  }

  lemma StoreKeepsSound(p: Pool, w: nat, answers: seq<FileRead>)
    requires Sound(p, answers) && Enabled(p, w) && p.workers[w].Fetching?
    ensures Sound(Step(p, w, answers), answers)
  {
    var q := Step(p, w, answers);
    forall i: nat | i < |q.claims|
      ensures q.results[i] == Some(answers[i]) || FetchedBy(q, i)
    {
      if i != p.workers[w].index && p.results[i] != Some(answers[i]) {
        var v :| 0 <= v < |p.workers| && p.workers[v] == Fetching(i);
        assert q.workers[v] == Fetching(i);
      }
    }
  }

  lemma StepKeepsSound(p: Pool, w: nat, answers: seq<FileRead>)
    requires Sound(p, answers) && Enabled(p, w)
    ensures Sound(Step(p, w, answers), answers)
  {
    if p.workers[w] == Idle {
      ClaimKeepsSound(p, w, answers);
    } else {
      StoreKeepsSound(p, w, answers);
    }
  }

  // ----- termination

  function Remaining(w: Worker): nat {
    match w
    case Idle => 1
    case Fetching(_) => 2
    case Returned => 0
  }

  function RemainingAll(workers: seq<Worker>): nat {
    if workers == [] then 0 else Remaining(workers[0]) + RemainingAll(workers[1..])
  }

  lemma {:induction false} RemainingUpdate(workers: seq<Worker>, w: nat, x: Worker)
    requires w < |workers|
    ensures RemainingAll(workers[w := x]) == RemainingAll(workers) - Remaining(workers[w]) + Remaining(x)
    decreases |workers|
  {
    if w == 0 {
      assert workers[w := x][1..] == workers[1..];
    } else {
      RemainingUpdate(workers[1..], w - 1, x);
      assert workers[w := x][1..] == workers[1..][w - 1 := x];
    }
  }

  /** Two for each unclaimed candidate, plus what each worker still has to do. */
  function Work(p: Pool): nat {
    2 * Max(0, |p.results| - p.nextIndex) + RemainingAll(p.workers)
  }

  lemma EveryStepIsProgress(p: Pool, w: nat, answers: seq<FileRead>)
    requires Sound(p, answers) && Enabled(p, w)
    ensures Work(Step(p, w, answers)) == Work(p) - 1
  {
    var next := Step(p, w, answers);
    RemainingUpdate(p.workers, w, next.workers[w]);
    assert next.workers == p.workers[w := next.workers[w]];
  }

  // ----- every schedule

  ghost predicate Runs(p: Pool, schedule: seq<nat>, answers: seq<FileRead>, q: Pool)
    requires |p.results| == |answers|
    decreases |schedule|
  {
    if schedule == [] then q == p
    else Enabled(p, schedule[0]) && Runs(Step(p, schedule[0], answers), schedule[1..], answers, q)
  }

  ghost predicate Finished(p: Pool) {
    |p.workers| > 0 && forall w :: 0 <= w < |p.workers| ==> p.workers[w] == Returned
  }

  lemma {:induction false} ScheduleKeepsSound(p: Pool, schedule: seq<nat>, answers: seq<FileRead>, q: Pool)
    requires Sound(p, answers) && Runs(p, schedule, answers, q)
    ensures Sound(q, answers) && Work(q) + |schedule| == Work(p)
    ensures |q.workers| == |p.workers|
    decreases |schedule|
  {
    if schedule != [] {
      StepKeepsSound(p, schedule[0], answers);
      EveryStepIsProgress(p, schedule[0], answers);
      ScheduleKeepsSound(Step(p, schedule[0], answers), schedule[1..], answers, q);
    }
  }

  lemma {:induction false} IdleWork(n: nat)
    ensures RemainingAll(seq(n, _ => Idle)) == n
    decreases n
  {
    if n > 0 {
      assert seq(n, _ => Idle)[1..] == seq(n - 1, _ => Idle);
      IdleWork(n - 1);
    }
  }

  lemma FinishedHoldsAll(q: Pool, answers: seq<FileRead>)
    requires Sound(q, answers) && Finished(q)
    ensures q.claims == seq(|answers|, i => i)
    ensures q.results == seq(|answers|, i requires 0 <= i < |answers| => Some(answers[i]))
  {
    assert q.workers[0] == Returned;
    forall i: nat | i < |answers| ensures q.results[i] == Some(answers[i]) {
      assert !FetchedBy(q, i);
    }
  }

  lemma UnfinishedCanMove(q: Pool, answers: seq<FileRead>)
    requires Sound(q, answers) && |q.workers| > 0 && !Finished(q)
    ensures exists w :: Enabled(q, w)
  {
    var w :| 0 <= w < |q.workers| && q.workers[w] != Returned;
    assert Enabled(q, w);
  }

  /** Every schedule is finite; a pool that has not finished can move; and when it has finished
      every index was claimed exactly once and holds its own read, whatever the schedule was. */
  lemma EverySchedule(workerCount: nat, schedule: seq<nat>, answers: seq<FileRead>, q: Pool)
    requires workerCount > 0 && Runs(Start(workerCount, |answers|), schedule, answers, q)
    ensures |schedule| <= 2 * |answers| + workerCount
    ensures Finished(q) || exists w :: Enabled(q, w)
    ensures Finished(q) ==>
              && q.claims == seq(|answers|, i => i)
              && q.results == seq(|answers|, i requires 0 <= i < |answers| => Some(answers[i]))
  {
    StartSound(workerCount, answers);
    IdleWork(workerCount);
    ScheduleKeepsSound(Start(workerCount, |answers|), schedule, answers, q);
    if Finished(q) {
      FinishedHoldsAll(q, answers);
    } else {
      UnfinishedCanMove(q, answers);
    }
  }

  // ----- the byte budget

  function LoadedBytes(answers: seq<FileRead>): nat {
    if answers == [] then 0
    else
      var last := answers[|answers| - 1];
      LoadedBytes(answers[..|answers| - 1]) + (if last.Loaded? then last.byteLength else 0)
  }

  /** The bytes of a loaded read count once, wherever it stands, and no other read counts. */
  lemma {:induction false} LoadedBytesAdd(before: seq<FileRead>, answer: FileRead, after: seq<FileRead>)
    ensures LoadedBytes(before + [answer] + after)
         == LoadedBytes(before + after) + (if answer.Loaded? then answer.byteLength else 0)
    decreases |after|
  {
    if after == [] {
      assert before + [answer] + after == before + [answer] && before + after == before;
      assert (before + [answer])[..|before|] == before;
    } else {
      var n := |after| - 1;
      assert (before + [answer] + after)[..|before| + 1 + n] == before + [answer] + after[..n];
      assert (before + after)[..|before| + n] == before + after[..n];
      LoadedBytesAdd(before, answer, after[..n]);
    }
  }

  /** Reads in candidate order, a loaded one refused when it would take the total over the limit. */
  function KeepWithin(answers: seq<FileRead>, maxTotalBytes: nat): (kept: seq<FileRead>)
    ensures |kept| == |answers|
  {
    if answers == [] then []
    else
      var init, last := KeepWithin(answers[..|answers| - 1], maxTotalBytes), answers[|answers| - 1];
      init + [if last.Loaded? && LoadedBytes(init) + last.byteLength > maxTotalBytes then ByteBudget else last]
  }

  /** The kept bytes never exceed the limit, and a read is refused exactly when keeping it would
      have taken the kept bytes before it over the limit. */
  lemma {:induction false} BudgetIsGreedy(answers: seq<FileRead>, maxTotalBytes: nat, i: nat)
    requires i < |answers|
    ensures LoadedBytes(KeepWithin(answers, maxTotalBytes)) <= maxTotalBytes
    ensures var kept := KeepWithin(answers, maxTotalBytes);
            var refused := answers[i].Loaded? && LoadedBytes(kept[..i]) + answers[i].byteLength > maxTotalBytes;
            kept[i] == if refused then ByteBudget else answers[i]
    decreases |answers|
  {
    var init, kept := answers[..|answers| - 1], KeepWithin(answers, maxTotalBytes);
    assert kept[..|answers| - 1] == KeepWithin(init, maxTotalBytes);
    if |answers| > 1 {
      BudgetIsGreedy(init, maxTotalBytes, if i < |answers| - 1 then i else 0);
      if i < |answers| - 1 {
        assert kept[..i] == KeepWithin(init, maxTotalBytes)[..i];
      }
    } else {
      assert kept[..0] == [];
    }
  }

  lemma {:induction false} EverythingFits(answers: seq<FileRead>, maxTotalBytes: nat)
    requires LoadedBytes(answers) <= maxTotalBytes
    ensures KeepWithin(answers, maxTotalBytes) == answers
    decreases |answers|
  {
    if answers != [] {
      EverythingFits(answers[..|answers| - 1], maxTotalBytes);
      assert answers == answers[..|answers| - 1] + [answers[|answers| - 1]];
    }
  }

  // ----- the method

  /** All reads, by a pool of workers under an arbitrary scheduler. */
  method FetchAll(answers: seq<FileRead>, fetchConcurrency: nat) returns (results: array<FileRead>)
    requires fetchConcurrency > 0
    ensures fresh(results) && results[..] == answers
  {
    var n := |answers|;
    results := new FileRead[n](_ => Missing);
    var workerCount := Min(fetchConcurrency, Max(n, 1));
    var workers := seq(workerCount, _ => Idle);
    var nextIndex := 0;
    ghost var pool := Start(workerCount, n);
    StartSound(workerCount, answers);
    while exists w :: 0 <= w < |workers| && workers[w] != Returned
      invariant Sound(pool, answers) && |workers| == workerCount > 0
      invariant pool.workers == workers && pool.nextIndex == nextIndex
      invariant forall i: nat :: i < n && pool.results[i].Some? ==> results[i] == answers[i]
      decreases Work(pool)
    {
      var w :| 0 <= w < |workers| && workers[w] != Returned;
      StepKeepsSound(pool, w, answers);
      EveryStepIsProgress(pool, w, answers);
      pool := Step(pool, w, answers);
      match workers[w] {
        case Idle =>
          var current := nextIndex;
          nextIndex := nextIndex + 1;
          workers := workers[w := if current >= n then Returned else Fetching(current)];
        case Fetching(i) =>
          results[i] := answers[i];
          workers := workers[w := Idle];
      }
    }
    assert workers[0] == Returned;
    forall i: nat | i < n ensures results[i] == answers[i] {
      assert !FetchedBy(pool, i);
    }
  }

  /** What the pass does with one more answer. */
  lemma KeepNext(answers: seq<FileRead>, i: nat, maxTotalBytes: nat)
    requires i < |answers|
    ensures var kept, read := KeepWithin(answers[..i], maxTotalBytes), answers[i];
            var refused := read.Loaded? && LoadedBytes(kept) + read.byteLength > maxTotalBytes;
            && KeepWithin(answers[..i + 1], maxTotalBytes) == kept + [if refused then ByteBudget else read]
            && LoadedBytes(KeepWithin(answers[..i + 1], maxTotalBytes))
               == LoadedBytes(kept) + (if read.Loaded? && !refused then read.byteLength else 0)
  {
    assert answers[..i + 1][..i] == answers[..i];
    var kept, all := KeepWithin(answers[..i], maxTotalBytes), KeepWithin(answers[..i + 1], maxTotalBytes);
    assert all[..|kept|] == kept;
  }

  /** The reads of all candidates within the byte budget, the same for every schedule. */
  method ReadIndexedFiles(answers: seq<FileRead>, fetchConcurrency: nat, maxTotalBytes: nat)
    returns (kept: seq<FileRead>)
    requires fetchConcurrency > 0
    ensures kept == KeepWithin(answers, maxTotalBytes)
  {
    var results := FetchAll(answers, fetchConcurrency);
    var usedBytes := 0;
    kept := [];
    for i := 0 to results.Length
      invariant results[..] == answers
      invariant kept == KeepWithin(answers[..i], maxTotalBytes)
      invariant usedBytes == LoadedBytes(kept)
    {
      hide KeepWithin, LoadedBytes;
      var read := results[i];
      KeepNext(answers, i, maxTotalBytes);
      if read.Loaded? && usedBytes + read.byteLength > maxTotalBytes {
        kept := kept + [ByteBudget];
      } else {
        kept := kept + [read];
        if read.Loaded? {
          usedBytes := usedBytes + read.byteLength;
        }
      }
    }
    assert answers[..results.Length] == answers;
  }
}
