/** What addPackageTxs does, one evaluation after the other: which transaction it looks at,
    with which totals, and what becomes of its package. A log of evaluations fixes the block
    and the reason for stopping. */
module Evaluations {
  import opened Miner

  // ----- The score -----

  /** CompareModifiedEntry: by fee per size, then by hash, without rounding. */
  predicate Higher(t: Tx, m: ModEntry, u: Tx, n: ModEntry) {
    var f1 := m.nModFeesWithAncestors * n.nSizeWithAncestors;
    var f2 := n.nModFeesWithAncestors * m.nSizeWithAncestors;
    f1 > f2 || (f1 == f2 && t < u)
  }

  ghost function FeeRate(m: ModEntry): real
    requires m.nSizeWithAncestors > 0
  {
    m.nModFeesWithAncestors as real / m.nSizeWithAncestors as real
  }

  lemma CrossProduct(a: int, b: int, c: int, d: int)
    requires b > 0 && d > 0
    ensures a as real / b as real > c as real / d as real <==> a * d > c * b
    ensures a as real / b as real == c as real / d as real <==> a * d == c * b
  {
    var x, y := a as real / b as real, c as real / d as real;
    assert x * b as real == a as real && y * d as real == c as real;
    var bd := b as real * d as real;
    assert bd > 0.0;
    assert (a * d) as real == a as real * d as real == x * bd;
    assert (c * b) as real == c as real * b as real == y * bd;
    ScaleOrder(x, y, bd);
  }

  lemma ScaleOrder(x: real, y: real, k: real)
    requires k > 0.0
    ensures x > y <==> x * k > y * k
    ensures x == y <==> x * k == y * k
  {}

  /** The higher score is the higher fee rate, ties going to the smaller hash. */
  lemma HigherIsRate(t: Tx, m: ModEntry, u: Tx, n: ModEntry)
    requires m.nSizeWithAncestors > 0 && n.nSizeWithAncestors > 0
    ensures Higher(t, m, u, n) <==> FeeRate(m) > FeeRate(n) || (FeeRate(m) == FeeRate(n) && t < u)
  {
    CrossProduct(m.nModFeesWithAncestors, m.nSizeWithAncestors, n.nModFeesWithAncestors, n.nSizeWithAncestors);
  }

  lemma HigherEither(t: Tx, m: ModEntry, u: Tx, n: ModEntry)
    requires t != u
    ensures Higher(t, m, u, n) || Higher(u, n, t, m)
  {}

  lemma HigherTrans(t: Tx, m: ModEntry, u: Tx, n: ModEntry, v: Tx, o: ModEntry)
    requires m.nSizeWithAncestors > 0 && n.nSizeWithAncestors > 0 && o.nSizeWithAncestors > 0
    requires Higher(t, m, u, n) && Higher(u, n, v, o)
    ensures Higher(t, m, v, o)
  {
    hide Higher, FeeRate;
    HigherIsRate(t, m, u, n);
    HigherIsRate(u, n, v, o);
    HigherIsRate(t, m, v, o);
  }

  ghost predicate Sized(mod: map<Tx, ModEntry>) {
    forall t :: t in mod ==> mod[t].nSizeWithAncestors > 0
  }

  /** The first entry of mapModifiedTx in the order of the score. */
  method BestModified(mod: map<Tx, ModEntry>) returns (modit: Tx)
    requires mod != map[]
    ensures modit in mod
    ensures Sized(mod) ==> forall u :: u in mod && u != modit ==> Higher(modit, mod[modit], u, mod[u])
  {
    hide Higher;
    var rest := mod.Keys;
    modit :| modit in rest;
    rest := rest - {modit};
    while rest != {}
      invariant rest <= mod.Keys && modit in mod && modit !in rest
      invariant Sized(mod) ==>
                  forall u :: u in mod && u !in rest && u != modit ==> Higher(modit, mod[modit], u, mod[u])
      decreases rest
    {
      var u :| u in rest;
      ghost var was := modit;
      HigherEither(was, mod[was], u, mod[u]);
      if Higher(u, mod[u], modit, mod[modit]) {
        modit := u;
        forall v | Sized(mod) && v in mod && v !in rest && v != was ensures Higher(u, mod[u], v, mod[v]) {
          HigherTrans(u, mod[u], was, mod[was], v, mod[v]);
        }
      }
      rest := rest - {u};
    }
  }

  // ----- The log -----

  /** Why the selection ended. */
  datatype Stop = Exhausted | LowFee | NearlyFull

  datatype Verdict = TooCheap | TooLarge | Inadmissible | Included

  /** iter was looked at with the given totals when the block was `before`. */
  datatype Evaluation = Evaluation(iter: Tx, entry: ModEntry, verdict: Verdict, before: seq<Tx>)

  /** What does not change during the selection; order is the walk over mapTx. */
  datatype Rules = Rules(pool: Pool, minFee: int -> int, admissible: Tx -> bool, limit: nat, order: seq<Tx>)

  ghost predicate Fits(c: Rules, block: set<Tx>, m: ModEntry) {
    && 4000 + Sum(c.pool.weight, block) + 4 * m.nSizeWithAncestors < c.limit
    && 400 + Sum(c.pool.sigops, block) + m.nSigOpCostWithAncestors < 80000
  }

  ghost function Judged(c: Rules, iter: Tx, entry: ModEntry, block: set<Tx>): Verdict {
    if entry.nModFeesWithAncestors < c.minFee(entry.nSizeWithAncestors) then TooCheap
    else if !Fits(c, block, entry) then TooLarge
    else if exists u :: u in Open(c.pool, iter, block) && !c.admissible(u) then Inadmissible
    else Included
  }

  /** An included package follows the block in sorted order; otherwise the block stays. */
  ghost predicate Leads(c: Rules, e: Evaluation, after: seq<Tx>) {
    if e.verdict == Included then
      && e.before <= after
      && SetOf(after[|e.before|..]) == Open(c.pool, e.iter, SetOf(e.before))
      && SortedForBlock(c.pool, after[|e.before|..])
    else after == e.before
  }

  ghost function Iters(log: seq<Evaluation>): set<Tx> {
    set i | 0 <= i < |log| :: log[i].iter
  }

  /** The walk over mapTx is by score, and sizes are positive. */
  ghost predicate Ranked(c: Rules) {
    && (forall t :: t in c.pool.txs ==> c.pool.size(t) > 0)
    && (forall i, j :: 0 <= i < j < |c.order| ==>
          Higher(c.order[i], FromEntry(c.pool, c.order[i]), c.order[j], FromEntry(c.pool, c.order[j])))
  }

  ghost predicate Beats(c: Rules, e: Evaluation, t: Tx) {
    exists n :: IsRecord(c.pool, n, t, SetOf(e.before)) && Higher(e.iter, e.entry, t, n)
  }

  /** Nothing that was not looked at before has a higher score. */
  ghost predicate IsBest(c: Rules, e: Evaluation, earlier: set<Tx>) {
    forall t :: t in c.order && t !in e.before && t !in earlier && t != e.iter ==> Beats(c, e, t)
  }

  /** The totals used are those of what is missing from the block, up to a transaction that was
      looked at before, whose totals may be too large. */
  ghost predicate Evaluates(c: Rules, e: Evaluation, earlier: set<Tx>) {
    && e.iter in c.pool.txs && e.iter !in e.before
    && (e.iter in c.order || WithAncestors(c.pool, e.iter) * SetOf(e.before) != {})
    && Covers(c.pool, e.entry, Open(c.pool, e.iter, SetOf(e.before)))
    && (e.iter !in earlier ==> IsRecord(c.pool, e.entry, e.iter, SetOf(e.before)))
    && e.verdict == Judged(c, e.iter, e.entry, SetOf(e.before))
    && (Ranked(c) ==> IsBest(c, e, earlier))
  }

  /** The evaluations lead from one block to the other. */
  ghost predicate Logged(c: Rules, start: seq<Tx>, log: seq<Evaluation>, end: seq<Tx>) {
    if log == [] then end == start
    else
      var n := |log| - 1;
      Evaluates(c, log[n], Iters(log[..n])) && Leads(c, log[n], end) && Logged(c, start, log[..n], log[n].before)
  }

  /** How many packages were too large since one was included. */
  ghost function Streak(log: seq<Evaluation>): nat {
    if log == [] then 0
    else
      var n := |log| - 1;
      match log[n].verdict
      case TooLarge => Streak(log[..n]) + 1
      case Included => 0
      case _ => Streak(log[..n])
  }

  /** Whether the last evaluation ends the selection. */
  ghost function StopOf(c: Rules, log: seq<Evaluation>): Stop {
    if log == [] then Exhausted
    else
      var last := log[|log| - 1];
      if last.verdict == TooCheap then LowFee
      else if last.verdict == TooLarge && Streak(log) > 1000
              && 4000 + Sum(c.pool.weight, SetOf(last.before)) > c.limit - 4000 then NearlyFull
      else Exhausted
  }

  /** No evaluation but the last ends the selection. */
  ghost predicate GoesOn(c: Rules, log: seq<Evaluation>) {
    forall k :: 0 <= k < |log| ==> StopOf(c, log[..k]) == Exhausted
  }

  // ----- The next evaluation -----

  ghost function EntryOf(c: Rules, mod: map<Tx, ModEntry>, t: Tx): ModEntry {
    if t in mod then mod[t] else FromEntry(c.pool, t)
  }

  /** The better one of the next entry of the walk and the best modified one. */
  ghost predicate Chosen(c: Rules, mi: nat, mod: map<Tx, ModEntry>, iter: Tx) {
    && (iter in mod || (mi < |c.order| && iter == c.order[mi]))
    && (Sized(mod) && (mi < |c.order| ==> FromEntry(c.pool, c.order[mi]).nSizeWithAncestors > 0) ==>
          && (forall u :: u in mod && u != iter ==> Higher(iter, EntryOf(c, mod, iter), u, mod[u]))
          && (mi < |c.order| && iter != c.order[mi] ==>
                Higher(iter, EntryOf(c, mod, iter), c.order[mi], FromEntry(c.pool, c.order[mi]))))
  }

  lemma ChosenModified(c: Rules, mi: nat, mod: map<Tx, ModEntry>, modit: Tx)
    requires modit in mod && (mi < |c.order| ==> c.order[mi] !in mod)
    requires Sized(mod) ==> forall u :: u in mod && u != modit ==> Higher(modit, mod[modit], u, mod[u])
    requires mi < |c.order| ==> Higher(modit, mod[modit], c.order[mi], FromEntry(c.pool, c.order[mi]))
    ensures Chosen(c, mi, mod, modit)
  {}

  lemma ChosenNext(c: Rules, mi: nat, mod: map<Tx, ModEntry>, modit: Tx)
    requires modit in mod && mi < |c.order| && c.order[mi] !in mod
    requires Sized(mod) ==> forall u :: u in mod && u != modit ==> Higher(modit, mod[modit], u, mod[u])
    requires !Higher(modit, mod[modit], c.order[mi], FromEntry(c.pool, c.order[mi]))
    ensures Chosen(c, mi, mod, c.order[mi])
  {
    hide Higher;
    var iter, m := c.order[mi], FromEntry(c.pool, c.order[mi]);
    HigherEither(modit, mod[modit], iter, m);
    forall u | u in mod && Sized(mod) && m.nSizeWithAncestors > 0 ensures Higher(iter, m, u, mod[u]) {
      if u != modit { HigherTrans(iter, m, modit, mod[modit], u, mod[u]); }
    }
  }

  lemma ChosenAlone(c: Rules, mi: nat, mod: map<Tx, ModEntry>)
    requires mod == map[] && mi < |c.order|
    ensures Chosen(c, mi, mod, c.order[mi])
  {}

  lemma NothingLogged(c: Rules, start: seq<Tx>)
    ensures Logged(c, start, [], start) && GoesOn(c, []) && StopOf(c, []) == Exhausted
    ensures Streak([]) == 0 && Iters([]) == {}
  {}

  lemma NothingModified(p: Pool, mod: map<Tx, ModEntry>, failed: set<Tx>)
    requires AllRecorded(p, mod, {}, {}, failed)
    ensures mod == map[]
  {
    forall t ensures t !in mod {
      assert Recorded(p, mod, t, {}, {}, failed);
    }
  }

  lemma JudgedIsRejected(c: Rules, iter: Tx, entry: ModEntry, vtx: seq<Tx>, failed: set<Tx>, rejected: set<Tx>)
    requires AllRejected(c.pool, c.admissible, c.limit, vtx, rejected) && failed <= rejected && iter !in SetOf(vtx)
    requires iter !in failed ==> IsRecord(c.pool, entry, iter, SetOf(vtx))
    ensures Judged(c, iter, entry, SetOf(vtx)) == TooLarge || Judged(c, iter, entry, SetOf(vtx)) == Inadmissible ==>
              AllRejected(c.pool, c.admissible, c.limit, vtx, rejected + {iter})
  {
    hide Rejected, Sum, Open, FeeRecord;
    var verdict := Judged(c, iter, entry, SetOf(vtx));
    if (verdict == TooLarge || verdict == Inadmissible) && iter !in failed {
      RejectNow(c.pool, c.admissible, c.limit, vtx, iter);
    }
  }

  lemma SumPositive(f: Tx -> nat, s: set<Tx>, t: Tx)
    requires t in s && f(t) > 0
    ensures Sum(f, s) > 0
  {
    SumRemove(f, s, t);
  }

  lemma EntrySized(c: Rules, mod: map<Tx, ModEntry>, block: set<Tx>, failed: set<Tx>, t: Tx)
    requires PoolOk(c.pool) && AllRecorded(c.pool, mod, block, block, failed) && Ranked(c)
    requires t in mod || (t in c.pool.txs && t !in block)
    ensures EntryOf(c, mod, t).nSizeWithAncestors > 0
  {
    hide PoolOk, AllRecorded, Sum, Higher;
    EntryTotals(c.pool, mod, block, failed, t);
    SumPositive(c.pool.size, Open(c.pool, t, block), t);
  }

  /** A candidate that was not looked at is beaten by the one chosen. */
  lemma ChosenBeats(c: Rules, mi: nat, mod: map<Tx, ModEntry>, vtx: seq<Tx>, failed: set<Tx>, rejected: set<Tx>,
                    iter: Tx, t: Tx, verdict: Verdict)
    requires PoolOk(c.pool) && AllRecorded(c.pool, mod, SetOf(vtx), SetOf(vtx), failed) && Ranked(c)
    requires mi <= |c.order| && Chosen(c, mi, mod, iter) && Considered(c.order, mi, SetOf(vtx), mod, rejected)
    requires forall u :: u in c.order ==> u in c.pool.txs
    requires mi < |c.order| ==> c.order[mi] !in SetOf(vtx) && c.order[mi] !in mod
    requires failed <= rejected && t in c.order && t !in vtx && t !in rejected && t != iter
    ensures Beats(c, Evaluation(iter, EntryOf(c, mod, iter), verdict, vtx), t)
  {
    hide PoolOk, AllRecorded, IsRecord, Covers, Higher, FromEntry, Ranked;
    var p, block := c.pool, SetOf(vtx);
    forall u | u in mod ensures mod[u].nSizeWithAncestors > 0 { EntrySized(c, mod, block, failed, u); }
    if mi < |c.order| { EntrySized(c, mod, block, failed, c.order[mi]); }
    EntryTotals(p, mod, block, failed, t);
    EntrySized(c, mod, block, failed, t);
    var e := Evaluation(iter, EntryOf(c, mod, iter), verdict, vtx);
    if t !in mod {
      var j :| 0 <= j < |c.order| && c.order[j] == t;
      assert j >= mi;
      WalkBeats(c, mi, mod, block, failed, iter, j);
    }
    assert Higher(e.iter, e.entry, t, EntryOf(c, mod, t));
  }

  lemma WalkBeats(c: Rules, mi: nat, mod: map<Tx, ModEntry>, block: set<Tx>, failed: set<Tx>, iter: Tx, j: nat)
    requires PoolOk(c.pool) && AllRecorded(c.pool, mod, block, block, failed) && Ranked(c)
    requires mi <= j < |c.order| && Chosen(c, mi, mod, iter) && c.order[j] != iter && c.order[j] !in mod
    requires c.order[mi] in c.pool.txs && c.order[mi] !in block && c.order[mi] !in mod
    requires c.order[j] in c.pool.txs && c.order[j] !in block && Sized(mod)
    ensures Higher(iter, EntryOf(c, mod, iter), c.order[j], FromEntry(c.pool, c.order[j]))
  {
    hide PoolOk, AllRecorded, Higher, FromEntry;
    EntrySized(c, mod, block, failed, c.order[mi]);
    EntrySized(c, mod, block, failed, c.order[j]);
    if iter != c.order[mi] {
      if j > mi {
        EntrySized(c, mod, block, failed, iter);
        HigherTrans(iter, EntryOf(c, mod, iter), c.order[mi], FromEntry(c.pool, c.order[mi]), c.order[j],
                    FromEntry(c.pool, c.order[j]));
      }
    }
  }

  /** The evaluation that the main loop makes next is one of the log. */
  lemma ChosenEvaluates(c: Rules, mi: nat, mod: map<Tx, ModEntry>, vtx: seq<Tx>, failed: set<Tx>, rejected: set<Tx>,
                        iter: Tx, earlier: set<Tx>)
    requires PoolOk(c.pool) && AllRecorded(c.pool, mod, SetOf(vtx), SetOf(vtx), failed)
    requires mi <= |c.order| && Chosen(c, mi, mod, iter) && Considered(c.order, mi, SetOf(vtx), mod, rejected)
    requires forall u :: u in c.order ==> u in c.pool.txs
    requires mi < |c.order| ==> c.order[mi] !in SetOf(vtx) && c.order[mi] !in mod
    requires failed <= rejected <= earlier
    ensures var entry := EntryOf(c, mod, iter);
            Evaluates(c, Evaluation(iter, entry, Judged(c, iter, entry, SetOf(vtx)), vtx), earlier)
  {
    hide PoolOk, AllRecorded, IsRecord, Covers, Higher, FromEntry, Ranked, Judged, Considered, Beats;
    var entry := EntryOf(c, mod, iter);
    EntryTotals(c.pool, mod, SetOf(vtx), failed, iter);
    var e := Evaluation(iter, entry, Judged(c, iter, entry, SetOf(vtx)), vtx);
    if Ranked(c) {
      forall t | t in c.order && t !in vtx && t !in earlier && t != iter ensures Beats(c, e, t) {
        ChosenBeats(c, mi, mod, vtx, failed, rejected, iter, t, e.verdict);
      }
    }
  }

  lemma LoggedNext(c: Rules, start: seq<Tx>, log: seq<Evaluation>, e: Evaluation, end: seq<Tx>)
    requires Logged(c, start, log, e.before) && Evaluates(c, e, Iters(log)) && Leads(c, e, end)
    requires GoesOn(c, log) && StopOf(c, log) == Exhausted
    ensures Logged(c, start, log + [e], end) && GoesOn(c, log + [e])
    ensures Iters(log + [e]) == Iters(log) + {e.iter}
  {
    hide Evaluates, Leads, StopOf;
    var now := log + [e];
    assert now[..|log|] == log;
    forall k | 0 <= k < |now| ensures StopOf(c, now[..k]) == Exhausted {
      assert now[..k] == if k < |log| then log[..k] else log;
    }
    ItersNext(log, e);
  }

  lemma ItersNext(log: seq<Evaluation>, e: Evaluation)
    ensures Iters(log + [e]) == Iters(log) + {e.iter}
  {
    var now := log + [e];
    forall t | t in Iters(log) ensures t in Iters(now) {
      var i :| 0 <= i < |log| && log[i].iter == t;
      assert now[i].iter == t;
    }
    assert now[|log|].iter == e.iter;
  }

  lemma StreakNext(c: Rules, log: seq<Evaluation>, e: Evaluation)
    ensures Streak(log + [e]) ==
              match e.verdict { case TooLarge => Streak(log) + 1 case Included => 0 case _ => Streak(log) }
    ensures StopOf(c, log + [e]) ==
              if e.verdict == TooCheap then LowFee
              else if e.verdict == TooLarge && Streak(log) >= 1000
                      && 4000 + Sum(c.pool.weight, SetOf(e.before)) > c.limit - 4000 then NearlyFull
              else Exhausted
  {
    assert (log + [e])[..|log|] == log;
  }

  // ----- The walk over mapTx -----

  /** What the walk has passed is in the block, recorded for later, or was rejected. */
  ghost predicate Considered(order: seq<Tx>, mi: nat, block: set<Tx>, mod: map<Tx, ModEntry>, rejected: set<Tx>) {
    forall i :: 0 <= i < mi && i < |order| ==> order[i] in block || order[i] in mod || order[i] in rejected
  }

  lemma NothingConsidered(p: Pool, admissible: Tx -> bool, maxWeight: nat, vtx: seq<Tx>, order: seq<Tx>, block: set<Tx>)
    ensures AllRejected(p, admissible, maxWeight, vtx, {})
  {
  }

  lemma NothingConsideredYet(order: seq<Tx>, block: set<Tx>, mod: map<Tx, ModEntry>)
    ensures Considered(order, 0, block, mod, {})
  {
  }

  lemma ConsideredNext(order: seq<Tx>, mi: nat, block: set<Tx>, mod: map<Tx, ModEntry>, rejected: set<Tx>)
    requires Considered(order, mi, block, mod, rejected) && mi < |order|
    requires order[mi] in block || order[mi] in mod || order[mi] in rejected
    ensures Considered(order, mi + 1, block, mod, rejected)
  {
  }

  lemma ConsideredRejected(order: seq<Tx>, passed: nat, mi: nat, block: set<Tx>, mod: map<Tx, ModEntry>,
                           rejected: set<Tx>, iter: Tx)
    requires Considered(order, passed, block, mod, rejected)
    requires mi == passed || (mi == passed + 1 && passed < |order| && order[passed] == iter)
    ensures Considered(order, mi, block, mod - {iter}, rejected + {iter})
    ensures Considered(order, mi, block, mod, rejected + {iter})
  {
  }

  lemma ConsideredIncluded(order: seq<Tx>, passed: nat, mi: nat, block: set<Tx>, mod: map<Tx, ModEntry>,
                           block': set<Tx>, mod': map<Tx, ModEntry>, rejected: set<Tx>, iter: Tx)
    requires Considered(order, passed, block, mod, rejected) && block <= block' && iter in block'
    requires mi == passed || (mi == passed + 1 && passed < |order| && order[passed] == iter)
    requires forall t :: t in mod ==> t in mod' || t in block'
    ensures Considered(order, mi, block', mod', rejected)
  {
  }

  lemma AllConsidered(p: Pool, admissible: Tx -> bool, maxWeight: nat, vtx: seq<Tx>, order: seq<Tx>, block: set<Tx>,
                      mod: map<Tx, ModEntry>, rejected: set<Tx>)
    requires Considered(order, |order|, block, mod, rejected) && mod == map[]
    requires AllRejected(p, admissible, maxWeight, vtx, rejected)
    ensures forall t :: t in order ==> t in block || t in rejected
    ensures forall t :: t in order ==> t in block || Rejected(p, admissible, maxWeight, vtx, t)
  {
    hide Rejected;
  }

  // ----- What a log tells -----

  lemma {:induction false} LoggedAt(c: Rules, start: seq<Tx>, log: seq<Evaluation>, end: seq<Tx>, k: nat)
    requires Logged(c, start, log, end) && k < |log|
    ensures Evaluates(c, log[k], Iters(log[..k])) && Logged(c, start, log[..k], log[k].before)
    ensures Leads(c, log[k], if k + 1 < |log| then log[k + 1].before else end)
    ensures start <= log[k].before <= end
    decreases |log|
  {
    hide Evaluates;
    var n := |log| - 1;
    LoggedGrows(c, start, log[..k], log[k].before);
    if k < n {
      LoggedAt(c, start, log[..n], log[n].before, k);
      assert log[..n][..k] == log[..k];
    }
  }

  lemma {:induction false} LoggedGrows(c: Rules, start: seq<Tx>, log: seq<Evaluation>, end: seq<Tx>)
    ensures Logged(c, start, log, end) ==> start <= end
  {
    hide Evaluates;
    if log != [] {
      var n := |log| - 1;
      LoggedGrows(c, start, log[..n], log[n].before);
    }
  }

  lemma EmptyRecord(c: Rules, t: Tx, m: ModEntry)
    requires PoolOk(c.pool) && t in c.pool.txs && IsRecord(c.pool, m, t, {})
    ensures m == FromEntry(c.pool, t) && Open(c.pool, t, {}) == WithAncestors(c.pool, t)
  {
    hide Sum, SumFees;
    assert Open(c.pool, t, {}) == WithAncestors(c.pool, t);
    assert WithAncestors(c.pool, t) * {} == {};
  }

  /** From an empty block, the first evaluation uses the totals that the pool keeps. */
  lemma FirstEvaluation(c: Rules, log: seq<Evaluation>, end: seq<Tx>)
    requires PoolOk(c.pool) && Logged(c, [], log, end) && log != []
    ensures log[0].before == [] && log[0].iter in c.order && log[0].iter in c.pool.txs
    ensures log[0].entry == FromEntry(c.pool, log[0].iter)
    ensures log[0].verdict == Judged(c, log[0].iter, log[0].entry, {})
    ensures Open(c.pool, log[0].iter, {}) == WithAncestors(c.pool, log[0].iter)
  {
    hide PoolOk, IsRecord, Judged, IsBest, Ranked;
    LoggedAt(c, [], log, end, 0);
    assert log[..0] == [] && SetOf([]) == {};
    EmptyRecord(c, log[0].iter, log[0].entry);
  }

  /** Nothing is mined for less than the minimum: if no transaction of the walk reaches it with
      its ancestors, the block stays empty. */
  lemma NothingPays(c: Rules, log: seq<Evaluation>, end: seq<Tx>)
    requires PoolOk(c.pool) && Logged(c, [], log, end) && GoesOn(c, log) && log != []
    requires forall t :: t in c.order ==> c.pool.modFeesWithAncestors(t) < c.minFee(c.pool.sizeWithAncestors(t))
    ensures StopOf(c, log) == LowFee && end == []
  {
    hide PoolOk, Evaluates;
    FirstEvaluation(c, log, end);
    LoggedAt(c, [], log, end, 0);
    assert log[..1] == [log[0]];
    assert StopOf(c, [log[0]]) == LowFee;
  }

  /** The package at the head of the walk is mined if it reaches the minimum, fits and is
      admissible. */
  lemma FirstPackageTaken(c: Rules, log: seq<Evaluation>, end: seq<Tx>)
    requires PoolOk(c.pool) && Logged(c, [], log, end) && log != [] && c.order != [] && log[0].iter == c.order[0]
    requires var t := c.order[0];
             && c.pool.modFeesWithAncestors(t) >= c.minFee(c.pool.sizeWithAncestors(t))
             && 4000 + 4 * c.pool.sizeWithAncestors(t) < c.limit && 400 + c.pool.sigopsWithAncestors(t) < 80000
             && forall u :: u in WithAncestors(c.pool, t) ==> c.admissible(u)
    ensures WithAncestors(c.pool, c.order[0]) <= SetOf(end)
  {
    hide PoolOk, Evaluates, SortedForBlock;
    FirstEvaluation(c, log, end);
    LoggedAt(c, [], log, end, 0);
    var after := if 1 < |log| then log[1].before else end;
    if 1 < |log| { LoggedAt(c, [], log, end, 1); }
    assert log[0].verdict == Included;
    assert after[0..] == after;
    assert forall u :: u in after ==> u in end;
  }

  // ----- Greedy by fee rate -----

  /** No fee is modified, and the pool's totals of fees are sums. */
  ghost predicate PlainFees(p: Pool) {
    forall t :: t in p.txs ==>
      && p.modFeesWithAncestors(t) == SumFees(p.modFee, WithAncestors(p, t))
      && forall u :: u in WithAncestors(p, t) ==> p.fee(u) == p.modFee(u)
  }

  /** The fee rate of what is missing from the block for t. */
  ghost function PackageRate(p: Pool, t: Tx, block: set<Tx>): real
    requires t in p.txs && t !in block && p.size(t) > 0
  {
    SumPositive(p.size, Open(p, t, block), t);
    SumFees(p.modFee, Open(p, t, block)) as real / Sum(p.size, Open(p, t, block)) as real
  }

  lemma RecordRate(p: Pool, m: ModEntry, t: Tx, block: set<Tx>)
    requires PlainFees(p) && t in p.txs && t !in block && p.size(t) > 0 && IsRecord(p, m, t, block)
    ensures m.nSizeWithAncestors > 0 && FeeRate(m) == PackageRate(p, t, block)
  {
    hide Sum, SumFees, FeeRecord;
    SumPositive(p.size, Open(p, t, block), t);
    PlainFeeRecord(p, m, t, block);
  }

  /** Every package that is looked at for the first time has the highest fee rate, over what is
      missing from the block, of all that were not looked at yet. */
  lemma GreedyByFeeRate(c: Rules, start: seq<Tx>, log: seq<Evaluation>, end: seq<Tx>, k: nat, t: Tx)
    requires Logged(c, start, log, end) && Ranked(c) && PlainFees(c.pool) && k < |log|
    requires forall u :: u in c.order ==> u in c.pool.txs
    requires log[k].iter !in Iters(log[..k]) && t !in Iters(log[..k]) && t in c.order && t !in log[k].before
    ensures log[k].iter in c.pool.txs && log[k].iter !in log[k].before
    ensures PackageRate(c.pool, log[k].iter, SetOf(log[k].before)) >= PackageRate(c.pool, t, SetOf(log[k].before))
  {
    hide IsRecord, PackageRate, FeeRate, Higher, PlainFees, Logged;
    LoggedAt(c, start, log, end, k);
    var e, block := log[k], SetOf(log[k].before);
    RecordRate(c.pool, e.entry, e.iter, block);
    if t != e.iter {
      assert Beats(c, e, t);
      var n :| IsRecord(c.pool, n, t, block) && Higher(e.iter, e.entry, t, n);
      RecordRate(c.pool, n, t, block);
      HigherIsRate(e.iter, e.entry, t, n);
    }
  }

  // ----- The minimum fee -----

  /** CFeeRate::GetFee for a rate that is not negative. */
  function GetFee(nSatoshisPerK: nat, nSize: nat): int {
    var nFee := nSatoshisPerK * nSize / 1000;
    if nFee == 0 && nSize != 0 && nSatoshisPerK > 0 then 1 else nFee
  }

  lemma BelowRate(rate: nat, size: nat, fee: int)
    requires size > 0 && fee < GetFee(rate, size)
    ensures 1000 * fee < rate * size
  {
    ProductPositive(rate, size);
  }

  lemma ProductPositive(a: nat, b: nat)
    ensures a * b >= 0 && (a > 0 && b > 0 ==> a * b > 0)
  {}

  lemma LowerRate(rate: nat, a: int, m: int, b: int, n: int)
    requires m > 0 && n > 0 && 1000 * a < rate * m && b * m <= a * n
    ensures 1000 * b < rate * n
  {
    MulLess(1000 * a, rate * m, n);
    assert (1000 * b) * m == 1000 * (b * m) && (1000 * a) * n == 1000 * (a * n);
    assert (rate * m) * n == (rate * n) * m;
    MulLess(1000 * b, rate * n, m);
  }

  lemma MulLess(x: int, y: int, k: int)
    requires k > 0
    ensures x < y <==> x * k < y * k
  {}

  lemma AtMostMinimum(rate: nat, size: nat, fee: int)
    requires 1000 * fee < rate * size
    ensures fee <= GetFee(rate, size)
  {}

  /** What remains when the selection stops for a low fee: everything not looked at is below
      the minimum rate as well, and pays at most the rounded minimum. */
  lemma NothingBetterLeft(c: Rules, rate: nat, start: seq<Tx>, log: seq<Evaluation>, end: seq<Tx>, t: Tx)
    requires Logged(c, start, log, end) && Ranked(c) && StopOf(c, log) == LowFee
    requires forall n: nat :: c.minFee(n) == GetFee(rate, n)
    requires forall u :: u in c.order ==> u in c.pool.txs
    requires t in c.order && t !in end && t !in Iters(log)
    ensures exists n :: IsRecord(c.pool, n, t, SetOf(end)) && n.nSizeWithAncestors > 0
                        && 1000 * n.nModFeesWithAncestors < rate * n.nSizeWithAncestors
                        && n.nModFeesWithAncestors <= c.minFee(n.nSizeWithAncestors)
  {
    hide FeeRecord, Fits, GetFee, Logged, Sum;
    var k := |log| - 1;
    LoggedAt(c, start, log, end, k);
    var e, block := log[k], SetOf(end);
    assert log == log[..k] + [e];
    ItersNext(log[..k], e);
    assert Beats(c, e, t);
    var n :| IsRecord(c.pool, n, t, block) && Higher(e.iter, e.entry, t, n);
    SumPositive(c.pool.size, Open(c.pool, t, block), t);
    SumPositive(c.pool.size, Open(c.pool, e.iter, block), e.iter);
    BelowRate(rate, e.entry.nSizeWithAncestors, e.entry.nModFeesWithAncestors);
    LowerRate(rate, e.entry.nModFeesWithAncestors, e.entry.nSizeWithAncestors, n.nModFeesWithAncestors,
              n.nSizeWithAncestors);
    AtMostMinimum(rate, n.nSizeWithAncestors, n.nModFeesWithAncestors);
  }

  /** Because the minimum is rounded, a package left for its lower rate may still reach it. */
  lemma RoundedMinimumReached()
    ensures var m, n := ModEntry(2, 2, 0), ModEntry(1, 1, 0);
            && Higher(0, m, 1, n)
            && m.nModFeesWithAncestors < GetFee(1500, m.nSizeWithAncestors)
            && n.nModFeesWithAncestors >= GetFee(1500, n.nSizeWithAncestors)
  {}
}
