/** CCheckQueue (src/checkqueue.h) as a state machine: a master and any number of workers,
    every critical section one atomic step, in any interleaving and with spurious wakeups. */
module CheckQueue {
  import opened Wrappers

  /** A check is an opaque job; eval says how running it turns out. */
  type Check = nat

  /** Where a thread is: not in Loop, waiting on its condition variable, or running a batch
      that it started with the given value of fOk. */
  datatype Thread = Outside | Asleep | Working(batch: seq<Check>, fOk: bool)

  /** The fields of the queue, the threads (the master is number 0), whether the master has
      been notified since it fell asleep, and two history variables: the checks added since
      the previous Wait returned, and those of them whose batch is finished. */
  datatype State = State(
    queue: seq<Check>, nIdle: int, nTotal: int, fAllOk: bool, nTodo: int, fQuit: bool, nBatchSize: nat,
    threads: seq<Thread>, masterNotified: bool,
    round: multiset<Check>, finished: multiset<Check>)

  datatype Action = Add(checks: seq<Check>) | Enter(t: nat) | Finish(t: nat) | Wake(t: nat)

  /** The new state, and what Wait returned if this step ended it. */
  datatype Outcome = Outcome(state: State, ret: Option<bool>)

  function Init(nThreads: nat, nBatchSize: nat, fQuit: bool): State {
    State([], 0, 0, true, 0, fQuit, nBatchSize, seq(nThreads, _ => Outside), false, multiset{}, multiset{})
  }

  // ----- The steps -----

  function Min(a: nat, b: nat): nat { if a < b then a else b }

  function Max(a: nat, b: nat): nat { if a < b then b else a }

  /** Running a batch: once a check failed, or none need be run, the rest is skipped. */
  function RunBatch(eval: Check -> bool, batch: seq<Check>, fOk: bool): bool {
    if batch == [] then fOk else RunBatch(eval, batch[1..], if fOk then eval(batch[0]) else fOk)
  }

  method RunChecks(eval: Check -> bool, vChecks: seq<Check>, fOk: bool) returns (r: bool)
    ensures r == RunBatch(eval, vChecks, fOk)
    ensures r <==> fOk && forall c :: c in vChecks ==> eval(c)
  {
    RunBatchMeans(eval, vChecks, fOk);
    r := fOk;
    for i := 0 to |vChecks|
      invariant RunBatch(eval, vChecks[i..], r) == RunBatch(eval, vChecks, fOk)
    {
      assert vChecks[i..][1..] == vChecks[i + 1..];
      if r {
        r := eval(vChecks[i]);
      }
    }
  }

  /** The last n checks, last one first: the queue is used as a stack. */
  function Taken(queue: seq<Check>, n: nat): (r: seq<Check>)
    requires n <= |queue|
    ensures |r| == n && forall i :: 0 <= i < n ==> r[i] == queue[|queue| - 1 - i]
  {
    if n == 0 then [] else [queue[|queue| - 1]] + Taken(queue[..|queue| - 1], n - 1)
  }

  method TakeBatch(queue: seq<Check>, nNow: nat) returns (vChecks: seq<Check>, rest: seq<Check>)
    requires nNow <= |queue|
    ensures vChecks == Taken(queue, nNow) && rest == queue[..|queue| - nNow]
  {
    vChecks, rest := [], queue;
    for i := 0 to nNow
      invariant rest == queue[..|queue| - i]
      invariant vChecks + Taken(rest, nNow - i) == Taken(queue, nNow)
    {
      ghost var last, shorter := rest[|rest| - 1], rest[..|rest| - 1];
      assert vChecks + Taken(rest, nNow - i) == (vChecks + [last]) + Taken(shorter, nNow - (i + 1));
      assert shorter == queue[..|queue| - (i + 1)];
      vChecks := vChecks + [rest[|rest| - 1]];
      rest := rest[..|rest| - 1];
    }
  }

  function BatchSize(s: State): (n: nat)
    requires s.queue != [] && s.nTotal + s.nIdle + 1 > 0
    ensures 1 <= n <= |s.queue|
    ensures n == 1 || (n <= s.nBatchSize && n * (s.nTotal + s.nIdle + 1) <= |s.queue|)
    ensures n >= s.nBatchSize || (n + 1) * (s.nTotal + s.nIdle + 1) > |s.queue|
  {
    Max(1, Min(s.nBatchSize, |s.queue| / (s.nTotal + s.nIdle + 1)))
  }

  /** The wait loop and the choice of work (src/checkqueue.h:92-120). */
  function Decide(s: State, t: nat): Outcome
    requires t < |s.threads| && s.nTotal + s.nIdle + 1 > 0
  {
    if s.queue == [] then
      if (t == 0 || s.fQuit) && s.nTodo == 0 then
        var u := s.(nTotal := s.nTotal - 1, threads := s.threads[t := Outside]);
        if t == 0 then Outcome(u.(fAllOk := true, round := multiset{}, finished := multiset{}), Some(s.fAllOk))
        else Outcome(u, None)
      else
        Outcome(s.(nIdle := s.nIdle + 1, threads := s.threads[t := Asleep],
                   masterNotified := if t == 0 then false else s.masterNotified), None)
    else
      var nNow := BatchSize(s);
      Outcome(s.(queue := s.queue[..|s.queue| - nNow],
                 threads := s.threads[t := Working(Taken(s.queue, nNow), s.fAllOk)]), None)
  }

  /** Once a check has failed, a batch that is taken runs none of its checks: its verdict is
      the same whatever they would say. */
  lemma FailureRunsNothing(s: State, t: nat, eval: Check -> bool)
    requires t < |s.threads| && s.nTotal + s.nIdle + 1 > 0 && s.queue != []
    ensures var w := Decide(s, t).state.threads[t];
            && w.Working? && w.batch != [] && Decide(s, t).state.queue + Reversed(w.batch) == s.queue
            && (w.fOk <==> s.fAllOk) && (!s.fAllOk ==> !RunBatch(eval, w.batch, w.fOk))
  {
    var w := Decide(s, t).state.threads[t];
    RunBatchMeans(eval, w.batch, w.fOk);
  }

  ghost function Reversed(s: seq<Check>): (r: seq<Check>)
    ensures |r| == |s| && forall i :: 0 <= i < |s| ==> r[i] == s[|s| - 1 - i]
  {
    seq(|s|, i requires 0 <= i < |s| => s[|s| - 1 - i])
  }

  /** The clean-up after a batch (src/checkqueue.h:81-86). */
  function CleanUp(eval: Check -> bool, s: State, t: nat): State
    requires t < |s.threads| && s.threads[t].Working?
  {
    var w := s.threads[t];
    var todo := s.nTodo - |w.batch|;
    s.(fAllOk := s.fAllOk && RunBatch(eval, w.batch, w.fOk),
       nTodo := todo,
       masterNotified := s.masterNotified || (todo == 0 && t != 0),
       threads := s.threads[t := Outside],
       finished := s.finished + multiset(w.batch))
  }

  /** Only the master adds checks, and only outside Wait. */
  ghost predicate Enabled(s: State, a: Action) {
    match a
    case Add(_) => |s.threads| > 0 && s.threads[0].Outside?
    case Enter(t) => t < |s.threads| && s.threads[t].Outside?
    case Finish(t) => t < |s.threads| && s.threads[t].Working?
    case Wake(t) => t < |s.threads| && s.threads[t].Asleep?
  }

  function Step(eval: Check -> bool, s: State, a: Action): Outcome
    requires Enabled(s, a) && 0 <= s.nIdle <= s.nTotal && (a.Wake? ==> s.nIdle > 0)
  {
    match a
    case Add(checks) =>
      Outcome(s.(queue := s.queue + checks, nTodo := s.nTodo + |checks|, round := s.round + multiset(checks)), None)
    case Enter(t) => Decide(s.(nTotal := s.nTotal + 1), t)
    case Finish(t) => Decide(CleanUp(eval, s, t), t)
    case Wake(t) => Decide(s.(nIdle := s.nIdle - 1, threads := s.threads[t := Outside]), t)
  }

  // ----- Counting over the threads -----

  ghost function InFlight(ts: seq<Thread>): nat {
    if ts == [] then 0 else InFlight(ts[1..]) + Load(ts[0])
  }

  ghost function Load(t: Thread): nat { if t.Working? then |t.batch| else 0 }

  ghost function Batches(ts: seq<Thread>): multiset<Check> {
    if ts == [] then multiset{} else Batches(ts[1..]) + Batch(ts[0])
  }

  ghost function Batch(t: Thread): multiset<Check> { if t.Working? then multiset(t.batch) else multiset{} }

  ghost function Sleepers(ts: seq<Thread>): nat {
    if ts == [] then 0 else Sleepers(ts[1..]) + if ts[0].Asleep? then 1 else 0
  }

  ghost function Insiders(ts: seq<Thread>): nat {
    if ts == [] then 0 else Insiders(ts[1..]) + if ts[0].Outside? then 0 else 1
  }

  lemma ThreadChanged(ts: seq<Thread>, i: nat, x: Thread)
    requires i < |ts|
    ensures InFlight(ts[i := x]) + Load(ts[i]) == InFlight(ts) + Load(x)
    ensures Batches(ts[i := x]) + Batch(ts[i]) == Batches(ts) + Batch(x)
    ensures Sleepers(ts[i := x]) + (if ts[i].Asleep? then 1 else 0) == Sleepers(ts) + if x.Asleep? then 1 else 0
    ensures Insiders(ts[i := x]) + (if ts[i].Outside? then 0 else 1) == Insiders(ts) + if x.Outside? then 0 else 1
  {
    hide InFlight, Batches, Sleepers, Insiders;
    CountsChanged(ts, i, x);
    BatchesChanged(ts, i, x);
  }

  lemma {:induction false} CountsChanged(ts: seq<Thread>, i: nat, x: Thread)
    requires i < |ts|
    ensures InFlight(ts[i := x]) + Load(ts[i]) == InFlight(ts) + Load(x)
    ensures Sleepers(ts[i := x]) + (if ts[i].Asleep? then 1 else 0) == Sleepers(ts) + if x.Asleep? then 1 else 0
    ensures Insiders(ts[i := x]) + (if ts[i].Outside? then 0 else 1) == Insiders(ts) + if x.Outside? then 0 else 1
  {
    if i > 0 {
      CountsChanged(ts[1..], i - 1, x);
      assert ts[i := x][1..] == ts[1..][i - 1 := x];
    }
  }

  lemma {:induction false} BatchesChanged(ts: seq<Thread>, i: nat, x: Thread)
    requires i < |ts|
    ensures Batches(ts[i := x]) + Batch(ts[i]) == Batches(ts) + Batch(x)
  {
    hide Batch;
    if i == 0 {
      assert ts[i := x][1..] == ts[1..];
      Exchange(Batches(ts[1..]), Batches(ts[1..]), Batch(ts[0]), Batch(x));
    } else {
      BatchesChanged(ts[1..], i - 1, x);
      assert ts[i := x][1..] == ts[1..][i - 1 := x];
      AddBoth(Batches(ts[i := x][1..]), Batch(ts[i]), Batches(ts[1..]), Batch(x), Batch(ts[0]));
    }
  }

  lemma Exchange(a: multiset<Check>, b: multiset<Check>, c: multiset<Check>, d: multiset<Check>)
    requires a == b
    ensures (a + d) + c == (b + c) + d
  {}

  lemma AddBoth(a: multiset<Check>, b: multiset<Check>, c: multiset<Check>, d: multiset<Check>, e: multiset<Check>)
    requires a + b == c + d
    ensures (a + e) + b == (c + e) + d
  {
    assert (a + e) + b == (a + b) + e;
    assert (c + e) + d == (c + d) + e;
  }

  lemma {:induction false} InFlightMember(ts: seq<Thread>, i: nat)
    requires i < |ts|
    ensures InFlight(ts) >= Load(ts[i]) && Batch(ts[i]) <= Batches(ts)
    ensures Insiders(ts) >= Sleepers(ts)
    ensures ts[i].Asleep? ==> Sleepers(ts) > 0
    ensures !ts[i].Outside? ==> Insiders(ts) > 0
  {
    SleepersInside(ts);
    if i > 0 {
      InFlightMember(ts[1..], i - 1);
    } else {
      SleepersInside(ts[1..]);
    }
  }

  lemma {:induction false} SleepersInside(ts: seq<Thread>)
    ensures Sleepers(ts) <= Insiders(ts)
  {
    if ts != [] {
      SleepersInside(ts[1..]);
    }
  }

  lemma {:induction false} NothingInFlight(ts: seq<Thread>)
    requires InFlight(ts) == 0
    ensures Batches(ts) == multiset{}
  {
    if ts != [] {
      NothingInFlight(ts[1..]);
    }
  }

  lemma {:induction false} SomeoneWorks(ts: seq<Thread>) returns (t: nat)
    requires InFlight(ts) > 0
    ensures t < |ts| && ts[t].Working? && ts[t].batch != []
  {
    if Load(ts[0]) > 0 {
      t := 0;
    } else {
      var t' := SomeoneWorks(ts[1..]);
      t := t' + 1;
    }
  }

  // ----- The invariant -----

  ghost predicate AnyFalse(eval: Check -> bool, checks: multiset<Check>) {
    exists c :: c in checks && !eval(c)
  }

  /** The counters are exact; extra is 1 while a thread is inside a critical section. */
  ghost predicate Counts(s: State, extra: nat) {
    && s.nTodo == |s.queue| + InFlight(s.threads)
    && s.nIdle == Sleepers(s.threads)
    && s.nTotal == Insiders(s.threads) + extra
    && (forall t :: 0 <= t < |s.threads| && s.threads[t].Working? ==> s.threads[t].batch != [])
  }

  /** Every added check is queued, in somebody's batch, or finished. */
  ghost predicate Accounted(s: State) {
    s.round == multiset(s.queue) + Batches(s.threads) + s.finished
  }

  /** fAllOk, and each thread's copy of it, is false only if some added check is, and stays
      true only if every finished check is. */
  ghost predicate Verdict(eval: Check -> bool, s: State) {
    && (s.fAllOk ==> forall c :: c in s.finished ==> eval(c))
    && (!s.fAllOk ==> AnyFalse(eval, s.round))
    && (forall t :: 0 <= t < |s.threads| && s.threads[t].Working? && !s.threads[t].fOk ==> AnyFalse(eval, s.round))
  }

  /** While the master sleeps, all remaining work is in the batches of workers, and there is
      some unless the master has been notified. */
  ghost predicate NoLostWakeup(s: State) {
    |s.threads| > 0 && s.threads[0].Asleep? ==> s.queue == [] && (s.nTodo > 0 || s.masterNotified)
  }

  ghost predicate Inv(eval: Check -> bool, s: State, extra: nat) {
    Counts(s, extra) && Accounted(s) && Verdict(eval, s) && NoLostWakeup(s)
  }

  lemma InitInv(eval: Check -> bool, nThreads: nat, nBatchSize: nat, fQuit: bool)
    ensures Inv(eval, Init(nThreads, nBatchSize, fQuit), 0)
  {
    AllOutside(Init(nThreads, nBatchSize, fQuit).threads);
  }

  lemma {:induction false} AllOutside(ts: seq<Thread>)
    requires forall t :: 0 <= t < |ts| ==> ts[t].Outside?
    ensures InFlight(ts) == Sleepers(ts) == Insiders(ts) == 0 && Batches(ts) == multiset{}
  {
    if ts != [] {
      AllOutside(ts[1..]);
    }
  }

  lemma {:induction false} TakenIsRest(queue: seq<Check>, n: nat)
    requires n <= |queue|
    ensures multiset(queue[..|queue| - n]) + multiset(Taken(queue, n)) == multiset(queue)
  {
    hide Taken;
    TakenNext(queue, n);
    if n == 0 {
      assert queue[..|queue|] == queue;
    } else {
      var shorter, last := queue[..|queue| - 1], queue[|queue| - 1];
      var rest, taken := shorter[..|shorter| - (n - 1)], Taken(shorter, n - 1);
      TakenIsRest(shorter, n - 1);
      assert queue[..|queue| - n] == rest;
      Concat(shorter, [last], queue);
      Concat([last], taken, Taken(queue, n));
      AddLast(multiset(rest), multiset(taken), multiset(shorter), multiset([last]));
    }
  }

  lemma TakenNext(queue: seq<Check>, n: nat)
    requires n <= |queue|
    ensures Taken(queue, n) == if n == 0 then [] else [queue[|queue| - 1]] + Taken(queue[..|queue| - 1], n - 1)
  {}

  lemma Concat(x: seq<Check>, y: seq<Check>, z: seq<Check>)
    requires z == x + y
    ensures multiset(z) == multiset(x) + multiset(y)
  {}

  lemma AddLast(a: multiset<Check>, b: multiset<Check>, c: multiset<Check>, x: multiset<Check>)
    requires a + b == c
    ensures a + (x + b) == c + x
  {}

  lemma {:induction false} RunBatchMeans(eval: Check -> bool, batch: seq<Check>, fOk: bool)
    ensures RunBatch(eval, batch, fOk) <==> fOk && forall c :: c in batch ==> eval(c)
  {
    if batch != [] {
      RunBatchMeans(eval, batch[1..], if fOk then eval(batch[0]) else fOk);
      assert batch == [batch[0]] + batch[1..];
    }
  }

  // ----- Each step keeps it -----

  lemma AddKeeps(eval: Check -> bool, s: State, checks: seq<Check>)
    requires Inv(eval, s, 0) && Enabled(s, Add(checks))
    ensures Inv(eval, s.(queue := s.queue + checks, nTodo := s.nTodo + |checks|, round := s.round + multiset(checks)),
                0)
  {
    hide InFlight, Batches, Sleepers, Insiders;
    if AnyFalse(eval, s.round) {
      var c :| c in s.round && !eval(c);
      assert c in s.round + multiset(checks);
    }
  }

  lemma WakeKeeps(eval: Check -> bool, s: State, t: nat)
    requires Inv(eval, s, 0) && t < |s.threads| && s.threads[t].Asleep?
    ensures s.nIdle > 0 && Inv(eval, s.(nIdle := s.nIdle - 1, threads := s.threads[t := Outside]), 1)
  {
    hide InFlight, Batches, Sleepers, Insiders;
    InFlightMember(s.threads, t);
    ThreadChanged(s.threads, t, Outside);
    SameBatches(s.threads[t := Outside], s.threads);
  }

  lemma SameBatches(ts: seq<Thread>, ts': seq<Thread>)
    requires Batches(ts) + multiset{} == Batches(ts') + multiset{}
    ensures Batches(ts) == Batches(ts')
  {
    assert Batches(ts) + multiset{} == Batches(ts);
    assert Batches(ts') + multiset{} == Batches(ts');
  }

  lemma CleanUpKeeps(eval: Check -> bool, s: State, t: nat)
    requires Inv(eval, s, 0) && t < |s.threads| && s.threads[t].Working?
    ensures Inv(eval, CleanUp(eval, s, t), 1)
  {
    hide Counts, Accounted, Verdict, RunBatch;
    CleanUpCounts(eval, s, t);
    CleanUpAccounted(eval, s, t);
    CleanUpVerdict(eval, s, t);
    if t != 0 && s.threads[0].Asleep? {
      WaitingFacts(eval, s, t);
    }
  }

  lemma CleanUpCounts(eval: Check -> bool, s: State, t: nat)
    requires Counts(s, 0) && t < |s.threads| && s.threads[t].Working?
    ensures Counts(CleanUp(eval, s, t), 1) && CleanUp(eval, s, t).nTodo >= 0
  {
    hide InFlight, Batches, Sleepers, Insiders, RunBatch;
    InFlightMember(s.threads, t);
    ThreadChanged(s.threads, t, Outside);
  }

  lemma CleanUpAccounted(eval: Check -> bool, s: State, t: nat)
    requires Accounted(s) && t < |s.threads| && s.threads[t].Working?
    ensures Accounted(CleanUp(eval, s, t))
  {
    hide InFlight, Batches, Sleepers, Insiders, RunBatch;
    ThreadChanged(s.threads, t, Outside);
    MoveBatch(CleanUp(eval, s, t).threads, s.threads, multiset(s.queue), s.finished, multiset(s.threads[t].batch));
  }

  lemma CleanUpVerdict(eval: Check -> bool, s: State, t: nat)
    requires Accounted(s) && Verdict(eval, s) && t < |s.threads| && s.threads[t].Working?
    ensures Verdict(eval, CleanUp(eval, s, t))
  {
    hide Batches, RunBatch;
    var w := s.threads[t];
    RunBatchMeans(eval, w.batch, w.fOk);
    InFlightMember(s.threads, t);
    if !RunBatch(eval, w.batch, w.fOk) && w.fOk {
      var c :| c in w.batch && !eval(c);
      assert c in Batch(w) && c in s.round;
    }
    assert forall c :: c in multiset(w.batch) <==> c in w.batch;
  }

  lemma MoveBatch(ts: seq<Thread>, ts': seq<Thread>, queued: multiset<Check>, done: multiset<Check>,
                  batch: multiset<Check>)
    requires Batches(ts) + batch == Batches(ts') + multiset{}
    ensures queued + Batches(ts) + (done + batch) == queued + Batches(ts') + done
  {
    assert Batches(ts') + multiset{} == Batches(ts');
    assert queued + Batches(ts) + (done + batch) == queued + (Batches(ts) + batch) + done;
  }

  /** A thread falls asleep only when the queue is empty. */
  lemma SleepKeeps(eval: Check -> bool, s: State, t: nat)
    requires Inv(eval, s, 1) && t < |s.threads| && s.threads[t].Outside?
    requires s.queue == [] && (t == 0 ==> s.nTodo != 0)
    ensures Inv(eval, s.(nIdle := s.nIdle + 1, threads := s.threads[t := Asleep],
                         masterNotified := if t == 0 then false else s.masterNotified), 0)
  {
    hide InFlight, Batches, Sleepers, Insiders;
    ThreadChanged(s.threads, t, Asleep);
    SameBatches(s.threads[t := Asleep], s.threads);
  }

  lemma TakeKeeps(eval: Check -> bool, s: State, t: nat, n: nat)
    requires Inv(eval, s, 1) && t < |s.threads| && s.threads[t].Outside?
    requires 1 <= n <= |s.queue|
    ensures Inv(eval, s.(queue := s.queue[..|s.queue| - n],
                         threads := s.threads[t := Working(Taken(s.queue, n), s.fAllOk)]), 0)
  {
    hide Counts, Accounted, Verdict, Taken;
    TakeCounts(s, t, n);
    TakeAccounted(s, t, n);
    TakeVerdict(eval, s, t, s.queue[..|s.queue| - n], Taken(s.queue, n));
  }

  lemma TakeCounts(s: State, t: nat, n: nat)
    requires Counts(s, 1) && t < |s.threads| && s.threads[t].Outside? && 1 <= n <= |s.queue|
    ensures Counts(s.(queue := s.queue[..|s.queue| - n],
                      threads := s.threads[t := Working(Taken(s.queue, n), s.fAllOk)]), 0)
  {
    hide InFlight, Batches, Sleepers, Insiders, Taken;
    ThreadChanged(s.threads, t, Working(Taken(s.queue, n), s.fAllOk));
  }

  lemma TakeAccounted(s: State, t: nat, n: nat)
    requires Accounted(s) && t < |s.threads| && s.threads[t].Outside? && 1 <= n <= |s.queue|
    ensures Accounted(s.(queue := s.queue[..|s.queue| - n],
                         threads := s.threads[t := Working(Taken(s.queue, n), s.fAllOk)]))
  {
    hide InFlight, Batches, Sleepers, Insiders, Taken;
    ThreadChanged(s.threads, t, Working(Taken(s.queue, n), s.fAllOk));
    TakenIsRest(s.queue, n);
    TakeBatches(s.threads[t := Working(Taken(s.queue, n), s.fAllOk)], s.threads, s.queue, n, s.finished);
  }

  lemma TakeVerdict(eval: Check -> bool, s: State, t: nat, rest: seq<Check>, batch: seq<Check>)
    requires Verdict(eval, s) && t < |s.threads|
    ensures Verdict(eval, s.(queue := rest, threads := s.threads[t := Working(batch, s.fAllOk)]))
  {
    hide AnyFalse;
  }

  lemma TakeBatches(ts: seq<Thread>, ts': seq<Thread>, queue: seq<Check>, n: nat, done: multiset<Check>)
    requires n <= |queue|
    requires Batches(ts) + multiset{} == Batches(ts') + multiset(Taken(queue, n))
    requires multiset(queue[..|queue| - n]) + multiset(Taken(queue, n)) == multiset(queue)
    ensures multiset(queue[..|queue| - n]) + Batches(ts) + done == multiset(queue) + Batches(ts') + done
  {
    assert Batches(ts) + multiset{} == Batches(ts);
    var rest, taken := multiset(queue[..|queue| - n]), multiset(Taken(queue, n));
    assert rest + (Batches(ts') + taken) == (rest + taken) + Batches(ts');
  }

  lemma LeaveKeeps(eval: Check -> bool, s: State, t: nat)
    requires Inv(eval, s, 1) && t < |s.threads| && s.threads[t].Outside?
    ensures Inv(eval, s.(nTotal := s.nTotal - 1, threads := s.threads[t := Outside]), 0)
  {
    hide InFlight, Batches, Sleepers, Insiders;
    assert s.threads[t := Outside] == s.threads;
  }

  /** When nothing is left to do, everything that was added is finished, so fAllOk is the
      conjunction of all the checks. */
  lemma AllDone(eval: Check -> bool, s: State, extra: nat)
    requires Inv(eval, s, extra) && s.nTodo == 0
    ensures s.queue == [] && s.finished == s.round
    ensures s.fAllOk <==> !AnyFalse(eval, s.round)
    ensures forall t :: 0 <= t < |s.threads| ==> !s.threads[t].Working?
  {
    hide InFlight, Batches, Sleepers, Insiders;
    NothingInFlight(s.threads);
    forall t | 0 <= t < |s.threads| ensures !s.threads[t].Working? {
      InFlightMember(s.threads, t);
    }
  }

  lemma ResetKeeps(eval: Check -> bool, s: State)
    requires Inv(eval, s, 0) && s.nTodo == 0
    ensures Inv(eval, s.(fAllOk := true, round := multiset{}, finished := multiset{}), 0)
  {
    hide InFlight, Batches, Sleepers, Insiders;
    AllDone(eval, s, 0);
    NothingInFlight(s.threads);
  }

  lemma DecideKeeps(eval: Check -> bool, s: State, t: nat)
    requires Inv(eval, s, 1) && t < |s.threads| && s.threads[t].Outside?
    ensures s.nTotal + s.nIdle + 1 > 0
    ensures var o := Decide(s, t);
            && Inv(eval, o.state, 0)
            && (o.ret.Some? ==> t == 0 && s.nTodo == 0 && s.finished == s.round
                                && (o.ret.value <==> !AnyFalse(eval, s.round)))
  {
    hide Inv;
    CountsSigns(eval, s);
    if s.queue == [] {
      if (t == 0 || s.fQuit) && s.nTodo == 0 {
        LeaveKeeps(eval, s, t);
        if t == 0 {
          AllDone(eval, s, 1);
          ResetKeeps(eval, s.(nTotal := s.nTotal - 1, threads := s.threads[t := Outside]));
        }
      } else {
        SleepKeeps(eval, s, t);
      }
    } else {
      TakeKeeps(eval, s, t, BatchSize(s));
    }
  }

  lemma CountsSigns(eval: Check -> bool, s: State)
    requires Inv(eval, s, 1)
    ensures 0 <= s.nIdle < s.nTotal && s.nTodo >= 0
  {
    SleepersInside(s.threads);
  }

  lemma EnterKeeps(eval: Check -> bool, s: State)
    requires Inv(eval, s, 0)
    ensures Inv(eval, s.(nTotal := s.nTotal + 1), 1) && 0 <= s.nIdle <= s.nTotal
  {
    SleepersInside(s.threads);
  }

  /** Every step keeps the invariant. A step ends Wait only when every check added since the
      previous Wait is finished, and Wait then returns whether all of them are true. */
  lemma StepKeeps(eval: Check -> bool, s: State, a: Action)
    requires Inv(eval, s, 0) && Enabled(s, a)
    ensures 0 <= s.nIdle <= s.nTotal && (a.Wake? ==> s.nIdle > 0)
    ensures var o := Step(eval, s, a);
            && Inv(eval, o.state, 0)
            && (o.ret.Some? ==>
                  && !a.Add? && a.t == 0
                  && (o.ret.value <==> !AnyFalse(eval, s.round))
                  && (if a.Finish? then CleanUp(eval, s, 0).finished else s.finished) == s.round)
  {
    hide Inv, Decide;
    EnterKeeps(eval, s);
    match a
    case Add(checks) => AddKeeps(eval, s, checks);
    case Enter(t) => DecideKeeps(eval, s.(nTotal := s.nTotal + 1), t);
    case Finish(t) =>
      CleanUpKeeps(eval, s, t);
      DecideKeeps(eval, CleanUp(eval, s, t), t);
    case Wake(t) =>
      WakeKeeps(eval, s, t);
      DecideKeeps(eval, s.(nIdle := s.nIdle - 1, threads := s.threads[t := Outside]), t);
  }

  // ----- Runs -----

  /** States that some interleaving reaches. */
  ghost predicate Run(eval: Check -> bool, s0: State, actions: seq<Action>, s: State)
    decreases |actions|
  {
    if actions == [] then s == s0
    else
      var a := actions[0];
      && Enabled(s0, a) && 0 <= s0.nIdle <= s0.nTotal && (a.Wake? ==> s0.nIdle > 0)
      && Run(eval, Step(eval, s0, a).state, actions[1..], s)
  }

  lemma {:induction false} RunKeeps(eval: Check -> bool, s0: State, actions: seq<Action>, s: State)
    requires Inv(eval, s0, 0) && Run(eval, s0, actions, s)
    ensures Inv(eval, s, 0)
    decreases |actions|
  {
    hide Inv, Step;
    if actions != [] {
      StepKeeps(eval, s0, actions[0]);
      RunKeeps(eval, Step(eval, s0, actions[0]).state, actions[1..], s);
    }
  }

  /** Whatever the interleaving, a step that ends Wait happens only when every check added
      since the previous Wait is finished, and returns whether they are all true. */
  lemma WaitTellsTheTruth(eval: Check -> bool, nThreads: nat, nBatchSize: nat, fQuit: bool, actions: seq<Action>,
                          s: State, a: Action)
    requires Run(eval, Init(nThreads, nBatchSize, fQuit), actions, s) && Enabled(s, a)
    ensures 0 <= s.nIdle <= s.nTotal && (a.Wake? ==> s.nIdle > 0)
    ensures Step(eval, s, a).ret.Some? ==>
              && (Step(eval, s, a).ret.value <==> !AnyFalse(eval, s.round))
              && (if a.Finish? then CleanUp(eval, s, a.t).finished else s.finished) == s.round
  {
    hide Inv, Step;
    InitInv(eval, nThreads, nBatchSize, fQuit);
    RunKeeps(eval, Init(nThreads, nBatchSize, fQuit), actions, s);
    StepKeeps(eval, s, a);
  }

  /** In every reachable state nTodo counts the queued and in-flight checks, and a master
      that waits without having been notified waits for a worker that holds a batch, with
      nothing left in the queue. A worker's clean-up notifies it exactly if its batch is all
      there is to do. */
  lemma MasterWaitsForAWorker(eval: Check -> bool, nThreads: nat, nBatchSize: nat, fQuit: bool, actions: seq<Action>,
                              s: State)
    returns (worker: nat)
    requires Run(eval, Init(nThreads, nBatchSize, fQuit), actions, s)
    ensures s.nTodo == |s.queue| + InFlight(s.threads)
    ensures |s.threads| > 0 && s.threads[0].Asleep? && !s.masterNotified ==>
              && 0 < worker < |s.threads| && s.threads[worker].Working?
              && Enabled(s, Finish(worker)) && s.queue == []
    ensures |s.threads| > 0 && s.threads[0].Asleep? && !s.masterNotified ==>
              forall w :: 0 < w < |s.threads| && s.threads[w].Working? ==>
                (CleanUp(eval, s, w).masterNotified <==> s.nTodo == |s.threads[w].batch|)
  {
    InitInv(eval, nThreads, nBatchSize, fQuit);
    RunKeeps(eval, Init(nThreads, nBatchSize, fQuit), actions, s);
    worker := 0;
    if InFlight(s.threads) > 0 {
      worker := SomeoneWorks(s.threads);
    }
  }

  /** The step by which a worker gets rid of its batch while the master sleeps. */
  lemma FinishWhileWaiting(eval: Check -> bool, s: State, w: nat)
    requires Inv(eval, s, 0) && 0 < w < |s.threads| && s.threads[w].Working? && s.threads[0].Asleep?
    ensures 0 <= s.nIdle <= s.nTotal
    ensures var u := Step(eval, s, Finish(w)).state;
            && Inv(eval, u, 0) && |u.threads| > 0 && u.threads[0].Asleep?
            && 0 <= u.nTodo < s.nTodo && u.round == s.round
  {
    hide Inv, InFlight, RunBatch;
    StepKeeps(eval, s, Finish(w));
    WaitingFacts(eval, s, w);
    WaitingFacts(eval, Step(eval, s, Finish(w)).state, 0);
  }

  lemma WaitingFacts(eval: Check -> bool, s: State, w: nat)
    requires Inv(eval, s, 0) && |s.threads| > 0 && s.threads[0].Asleep? && w < |s.threads|
    ensures s.queue == [] && s.nTodo >= 0 && (s.threads[w].Working? ==> s.threads[w].batch != [])
  {
    hide InFlight, Batches, Sleepers, Insiders, AnyFalse;
  }

  /** No deadlock: wherever a master waits, the workers can finish what they hold, and then
      the master has been notified, not only woken by chance, and goes on; Wait returns
      whether all checks of the round are true. */
  lemma {:induction false} WaitCanReturn(eval: Check -> bool, s: State) returns (more: seq<Action>, last: State)
    requires Inv(eval, s, 0) && |s.threads| > 0 && s.threads[0].Asleep?
    ensures Run(eval, s, more, last) && forall i :: 0 <= i < |more| ==> more[i].Finish?
    ensures last.masterNotified && last.nTodo == 0 && Enabled(last, Wake(0)) && 0 < last.nIdle <= last.nTotal
    ensures Step(eval, last, Wake(0)).ret == Some(!AnyFalse(eval, s.round))
    decreases s.nTodo
  {
    hide InFlight, Batches, Sleepers, Insiders, AnyFalse, RunBatch;
    if s.nTodo == 0 {
      more, last := [], s;
      StepKeeps(eval, s, Wake(0));
    } else {
      var w := SomeoneWorks(s.threads);
      FinishWhileWaiting(eval, s, w);
      var rest;
      rest, last := WaitCanReturn(eval, Step(eval, s, Finish(w)).state);
      more := [Finish(w)] + rest;
      assert more[1..] == rest;
    }
  }
}
