/** BlockAssembler (src/miner.cpp, src/miner.h): greedy selection of ancestor packages from the
    memory pool by fee rate. Comparisons of fee rates are exact here, where the source rounds
    to doubles. */
module Assembler {
  import opened Evaluations
  import opened Miner

  class BlockAssembler {
    const pool: Pool
    const nBlockMaxWeight: nat
    const blockMinFee: int -> int
    const admissible: Tx -> bool

    var vtx: seq<Tx>
    var vTxFees: seq<int>
    var vTxSigOpsCost: seq<nat>
    var nBlockWeight: int
    var nBlockTx: nat
    var nBlockSigOpsCost: int
    var nFees: int
    var inBlock: set<Tx>

    ghost predicate TotalsOk()
      reads this
    {
      && inBlock == SetOf(vtx) && nBlockTx == |vtx|
      && vTxFees == Each(pool.fee, vtx) && nFees == Total(vTxFees)
      && vTxSigOpsCost == Each(pool.sigops, vtx)
      && nBlockWeight == COINBASE_WEIGHT + Sum(pool.weight, inBlock)
      && nBlockSigOpsCost == COINBASE_SIGOPS + Sum(pool.sigops, inBlock)
    }

    ghost predicate Valid()
      reads this
    {
      TotalsOk() && GoodBlock(pool, admissible, vtx)
    }

    ghost predicate WithinLimits()
      reads this
    {
      && (vtx == [] || nBlockWeight < nBlockMaxWeight)
      && nBlockSigOpsCost < MAX_BLOCK_SIGOPS_COST
    }

    /** maxBlockWeight is the consensus limit; the limit used keeps 4000 below it. */
    constructor (pool: Pool, maxBlockWeight: nat, optionMaxWeight: nat, blockMinFee: int -> int,
                 admissible: Tx -> bool)
      requires maxBlockWeight >= 8000
      ensures this.pool == pool && this.admissible == admissible && this.blockMinFee == blockMinFee
      ensures Valid() && WithinLimits() && vtx == []
      ensures 4000 <= nBlockMaxWeight <= maxBlockWeight - 4000
      ensures 4000 <= optionMaxWeight <= maxBlockWeight - 4000 ==> nBlockMaxWeight == optionMaxWeight
      ensures optionMaxWeight < 4000 ==> nBlockMaxWeight == 4000
      ensures optionMaxWeight > maxBlockWeight - 4000 ==> nBlockMaxWeight == maxBlockWeight - 4000
    {
      this.pool, this.blockMinFee, this.admissible := pool, blockMinFee, admissible;
      var capped := if optionMaxWeight < maxBlockWeight - 4000 then optionMaxWeight else maxBlockWeight - 4000;
      nBlockMaxWeight := if capped < 4000 then 4000 else capped;
      new;
      ResetBlock();
    }

    method ResetBlock()
      modifies this
      ensures Valid() && WithinLimits() && vtx == []
    {
      vtx, vTxFees, vTxSigOpsCost := [], [], [];
      inBlock := {};
      nBlockWeight, nBlockSigOpsCost := COINBASE_WEIGHT, COINBASE_SIGOPS;
      nBlockTx, nFees := 0, 0;
    }

    method AddToBlock(t: Tx)
      requires Valid()
      requires t in pool.txs && admissible(t) && t !in inBlock && pool.anc(t) <= inBlock
      modifies this
      ensures Valid() && vtx == old(vtx) + [t] && inBlock == old(inBlock) + {t}
    {
      hide GoodBlock, Each, Total, Sum, SetOf;
      SetOfAppend(vtx, t);
      GoodBlockAppend(pool, admissible, vtx, t);
      EachAppend(pool.fee, vtx, t);
      EachAppend(pool.sigops, vtx, t);
      TotalAppend(vTxFees, pool.fee(t));
      SumAdd(pool.weight, inBlock, t);
      SumAdd(pool.sigops, inBlock, t);
      vtx := vtx + [t];
      vTxFees, vTxSigOpsCost := vTxFees + [pool.fee(t)], vTxSigOpsCost + [pool.sigops(t)];
      nBlockWeight := nBlockWeight + pool.weight(t);
      nBlockTx := nBlockTx + 1;
      nBlockSigOpsCost := nBlockSigOpsCost + pool.sigops(t);
      nFees := nFees + pool.fee(t);
      inBlock := inBlock + {t};
    }

    /** Adds a package in sorted order and erases its members from the modified set. */
    method AddPackage(package: set<Tx>, mod0: map<Tx, ModEntry>) returns (mod: map<Tx, ModEntry>)
      requires PoolOk(pool) && Valid() && GoodPackage(pool, admissible, inBlock, package)
      modifies this
      ensures Valid() && inBlock == old(inBlock) + package && old(vtx) <= vtx
      ensures var joined := vtx[|old(vtx)|..]; SetOf(joined) == package && SortedForBlock(pool, joined)
      ensures mod == mod0 - package
    {
      hide TotalsOk, GoodBlock, PoolOk, SortedForBlock;
      var sorted := SortForBlock(pool, package);
      mod := mod0;
      ghost var block := inBlock;
      var i := 0;
      while i < |sorted|
        invariant 0 <= i <= |sorted|
        invariant Valid() && inBlock == block + SetOf(sorted[..i]) && vtx == old(vtx) + sorted[..i]
        invariant mod == mod0 - SetOf(sorted[..i])
      {
        var t := sorted[i];
        assert t in SetOf(sorted);
        SortedParentsFirst(pool, block, sorted, i);
        assert sorted[..i + 1] == sorted[..i] + [t];
        SetOfAppend(sorted[..i], t);
        AddToBlock(t);
        mod := mod - {t};
        i := i + 1;
      }
      assert sorted[..i] == sorted;
      assert vtx[|old(vtx)|..] == sorted;
    }

    /** Tests whether a package fits. */
    predicate TestPackage(packageSize: int, packageSigOpsCost: int)
      reads this
    {
      && nBlockWeight + WITNESS_SCALE_FACTOR * packageSize < nBlockMaxWeight
      && nBlockSigOpsCost + packageSigOpsCost < MAX_BLOCK_SIGOPS_COST
    }

    method TestPackageTransactions(package: set<Tx>) returns (ok: bool)
      ensures ok <==> forall t :: t in package ==> admissible(t)
    {
      var rest := package;
      while rest != {}
        invariant rest <= package
        invariant forall t :: t in package && t !in rest ==> admissible(t)
        decreases rest
      {
        var t :| t in rest;
        if !admissible(t) {
          return false;
        }
        rest := rest - {t};
      }
      return true;
    }

    method OnlyUnconfirmed(testSet: set<Tx>) returns (r: set<Tx>)
      ensures r == testSet - inBlock
    {
      r := {};
      var rest := testSet;
      while rest != {}
        invariant rest <= testSet
        invariant forall t :: t in r <==> t in testSet && t !in rest && t !in inBlock
        decreases rest
      {
        var t :| t in rest;
        if t !in inBlock {
          r := r + {t};
        }
        rest := rest - {t};
      }
    }

    /** Includes the package of iter, which passed both tests, and updates its descendants. */
    method IncludePackage(iter: Tx, package: set<Tx>, mod0: map<Tx, ModEntry>, ghost entry: ModEntry,
                          ghost failed: set<Tx>)
      returns (mod: map<Tx, ModEntry>)
      requires PoolOk(pool) && Valid() && iter in pool.txs && iter !in inBlock
      requires package == Open(pool, iter, inBlock) && forall t :: t in package ==> admissible(t)
      requires Covers(pool, entry, package)
      requires TestPackage(entry.nSizeWithAncestors, entry.nSigOpCostWithAncestors)
      requires AllRecorded(pool, mod0, inBlock, inBlock, failed)
      modifies this
      ensures Valid() && WithinLimits() && old(vtx) <= vtx
      ensures inBlock == old(inBlock) + package && iter in inBlock
      ensures var joined := vtx[|old(vtx)|..]; SetOf(joined) == package && SortedForBlock(pool, joined)
      ensures AllRecorded(pool, mod, inBlock, inBlock, failed)
      ensures forall t :: t in mod0 ==> t in mod || t in inBlock
    {
      hide PoolOk, GoodBlock, AllRecorded, Open, Sum, Covers, SortedForBlock;
      PackageFacts(pool, admissible, inBlock, iter, vtx);
      ghost var before := inBlock;
      PackageFits(pool, inBlock, package, entry);
      EraseAdded(pool, mod0, inBlock, package, failed);
      mod := AddPackage(package, mod0);
      mod := UpdatePackagesForAdded(pool, package, mod, before, failed);
    }

    ghost function RulesOf(order: seq<Tx>): Rules {
      Rules(pool, blockMinFee, admissible, nBlockMaxWeight, order)
    }

    /** The next entry to evaluate: from the walk over mapTx or from the modified set. */
    method ChooseEntry(order: seq<Tx>, mi: nat, mod: map<Tx, ModEntry>) returns (iter: Tx, fUsingModified: bool)
      requires mi <= |order| && (mi == |order| ==> mod != map[]) && (mi < |order| ==> order[mi] !in mod)
      ensures fUsingModified ==> iter in mod
      ensures !fUsingModified ==> mi < |order| && iter == order[mi]
      ensures Chosen(RulesOf(order), mi, mod, iter)
    {
      hide Higher, Chosen;
      fUsingModified := false;
      if mod == map[] {
        iter := order[mi];
        ChosenAlone(RulesOf(order), mi, mod);
        return;
      }
      var modit := BestModified(mod);
      if mi == |order| || Higher(modit, mod[modit], order[mi], FromEntry(pool, order[mi])) {
        ChosenModified(RulesOf(order), mi, mod, modit);
        iter, fUsingModified := modit, true;
      } else {
        ChosenNext(RulesOf(order), mi, mod, modit);
        iter := order[mi];
      }
    }

    /** The tests that the chosen entry goes through (src/miner.cpp:423-472). An entry of the
        modified set that fails loses its record. */
    method Evaluate(iter: Tx, entry: ModEntry, fUsingModified: bool, mod0: map<Tx, ModEntry>, failed0: set<Tx>,
                    ghost order: seq<Tx>)
      returns (verdict: Verdict, mod: map<Tx, ModEntry>, failed: set<Tx>)
      requires PoolOk(pool) && Valid() && WithinLimits() && iter in pool.txs && iter !in inBlock
      requires AllRecorded(pool, mod0, inBlock, inBlock, failed0) && Covers(pool, entry, Open(pool, iter, inBlock))
      modifies this
      ensures Valid() && WithinLimits() && old(vtx) <= vtx
      ensures verdict == Judged(RulesOf(order), iter, entry, old(SetOf(vtx)))
      ensures Leads(RulesOf(order), Evaluation(iter, entry, verdict, old(vtx)), vtx)
      ensures AllRecorded(pool, mod, inBlock, inBlock, failed)
      ensures verdict == Included ==>
                failed == failed0 && iter in inBlock && forall t :: t in mod0 ==> t in mod || t in inBlock
      ensures old(inBlock) <= inBlock && (verdict != Included ==> inBlock == old(inBlock) && vtx == old(vtx))
      ensures verdict == TooLarge || verdict == Inadmissible ==>
                if fUsingModified then mod == mod0 - {iter} && failed == failed0 + {iter}
                else mod == mod0 && failed == failed0
    {
      hide PoolOk, TotalsOk, GoodBlock, AllRecorded, Covers, Open, WithinLimits, TestPackage, Judged, SortedForBlock;
      mod, failed := mod0, failed0;
      JudgedByTests(iter, entry, order);
      if entry.nModFeesWithAncestors < blockMinFee(entry.nSizeWithAncestors) {
        return TooCheap, mod, failed;
      }
      EraseFailed(pool, mod, inBlock, iter, failed);
      if !TestPackage(entry.nSizeWithAncestors, entry.nSigOpCostWithAncestors) {
        if fUsingModified {
          mod, failed := mod - {iter}, failed + {iter};
        }
        return TooLarge, mod, failed;
      }
      var ancestors := OnlyUnconfirmed(pool.anc(iter));
      ancestors := ancestors + {iter};
      OpenIs(iter);
      var ok := TestPackageTransactions(ancestors);
      if !ok {
        if fUsingModified {
          mod, failed := mod - {iter}, failed + {iter};
        }
        return Inadmissible, mod, failed;
      }
      BlockIsSet();
      mod := IncludePackage(iter, ancestors, mod, entry, failed);
      verdict := Included;
    }

    lemma OpenIs(t: Tx)
      requires t !in inBlock
      ensures Open(pool, t, inBlock) == (pool.anc(t) - inBlock) + {t}
    {}

    lemma BlockIsSet()
      requires TotalsOk()
      ensures inBlock == SetOf(vtx)
    {}

    lemma WeightIs()
      requires TotalsOk()
      ensures nBlockWeight == 4000 + Sum(pool.weight, SetOf(vtx))
    {}

    lemma JudgedByTests(iter: Tx, entry: ModEntry, order: seq<Tx>)
      requires TotalsOk()
      ensures inBlock == SetOf(vtx)
      ensures Judged(RulesOf(order), iter, entry, SetOf(vtx)) ==
                if entry.nModFeesWithAncestors < blockMinFee(entry.nSizeWithAncestors) then TooCheap
                else if !TestPackage(entry.nSizeWithAncestors, entry.nSigOpCostWithAncestors) then TooLarge
                else if !(forall t :: t in Open(pool, iter, inBlock) ==> admissible(t)) then Inadmissible
                else Included
    {
      hide Sum, Open, Each, Total;
    }

    /** The state of the main loop: the walk has come to mi, and nothing ended the selection. */
    ghost predicate Selecting(order: seq<Tx>, start: seq<Tx>, mi: nat, mod: map<Tx, ModEntry>, failed: set<Tx>,
                              nConsecutiveFailed: int, rejected: set<Tx>, log: seq<Evaluation>)
      reads this
    {
      && mi <= |order| && failed <= rejected <= Iters(log)
      && Valid() && WithinLimits() && start <= vtx
      && AllRecorded(pool, mod, inBlock, inBlock, failed)
      && AllRejected(pool, admissible, nBlockMaxWeight, vtx, rejected)
      && Considered(order, mi, inBlock, mod, rejected)
      && Logged(RulesOf(order), start, log, vtx) && GoesOn(RulesOf(order), log)
      && StopOf(RulesOf(order), log) == Exhausted && nConsecutiveFailed == Streak(log)
      && FirstLooked(order, start, mi, mod, log)
    }

    /** From an empty block, the walk starts with its first transaction. */
    ghost predicate FirstLooked(order: seq<Tx>, start: seq<Tx>, mi: nat, mod: map<Tx, ModEntry>, log: seq<Evaluation>) {
      start == [] && order != [] ==> if log == [] then mi == 0 && mod == map[] else log[0].iter == order[0]
    }

    /** One evaluation of the main loop. */
    method Turn(order: seq<Tx>, ghost start: seq<Tx>, mi0: nat, mod0: map<Tx, ModEntry>, failed0: set<Tx>, n0: int,
                ghost rejected0: set<Tx>, ghost log0: seq<Evaluation>)
      returns (stop: Stop, mi: nat, mod: map<Tx, ModEntry>, failed: set<Tx>, nConsecutiveFailed: int,
               ghost rejected: set<Tx>, ghost log: seq<Evaluation>)
      requires PoolOk(pool) && Selecting(order, start, mi0, mod0, failed0, n0, rejected0, log0)
      requires forall t :: t in order ==> t in pool.txs
      requires mi0 == |order| ==> mod0 != map[]
      requires mi0 < |order| ==> order[mi0] !in mod0 && order[mi0] !in inBlock && order[mi0] !in failed0
      modifies this
      ensures Valid() && WithinLimits() && start <= vtx
      ensures stop == StopOf(RulesOf(order), log)
      ensures Logged(RulesOf(order), start, log, vtx) && GoesOn(RulesOf(order), log)
      ensures FirstLooked(order, start, mi, mod, log) && log != []
      ensures stop == Exhausted ==>
                && Selecting(order, start, mi, mod, failed, nConsecutiveFailed, rejected, log)
                && old(inBlock) <= inBlock && mi0 <= mi
                && (old(inBlock) < inBlock || mi0 < mi || mod.Keys < mod0.Keys)
                && (inBlock <= pool.txs)
    {
      hide PoolOk, TotalsOk, GoodBlock, AllRecorded, Covers, IsRecord, Open, WithinLimits, TestPackage, AllRejected,
           Rejected, Considered, Judged, Leads, Logged, GoesOn, StopOf, Streak, Chosen, Evaluates, Iters;
      ghost var c, was := RulesOf(order), vtx;
      mi, rejected, nConsecutiveFailed := mi0, rejected0, n0;
      BlockIsSet();
      var iter, fUsingModified := ChooseEntry(order, mi, mod0);
      EntryTotals(pool, mod0, inBlock, failed0, iter);
      assert iter !in inBlock;
      var entry := if fUsingModified then mod0[iter] else FromEntry(pool, iter);
      ChosenEvaluates(c, mi, mod0, vtx, failed0, rejected, iter, Iters(log0));
      JudgedIsRejected(c, iter, entry, vtx, failed0, rejected);
      ghost var block := inBlock;
      if !fUsingModified {
        mi := mi + 1;
      }
      var verdict;
      verdict, mod, failed := Evaluate(iter, entry, fUsingModified, mod0, failed0, order);
      ghost var e := Evaluation(iter, entry, verdict, was);
      LoggedNext(c, start, log0, e, vtx);
      StreakNext(c, log0, e);
      log := log0 + [e];
      WeightIs();
      BlockInPool();
      match verdict
      case TooCheap =>
        stop := LowFee;
      case TooLarge =>
        nConsecutiveFailed := nConsecutiveFailed + 1;
        stop := if nConsecutiveFailed > MAX_CONSECUTIVE_FAILURES && nBlockWeight > nBlockMaxWeight - 4000
        then NearlyFull else Exhausted;
        ConsideredRejected(order, mi0, mi, inBlock, mod0, rejected, iter);
        rejected := rejected + {iter};
      case Inadmissible =>
        stop := Exhausted;
        ConsideredRejected(order, mi0, mi, inBlock, mod0, rejected, iter);
        rejected := rejected + {iter};
      case Included =>
        stop := Exhausted;
        nConsecutiveFailed := 0;
        ConsideredIncluded(order, mi0, mi, block, mod0, inBlock, mod, rejected, iter);
        AllRejectedStay(pool, admissible, nBlockMaxWeight, was, vtx, rejected);
    }

    lemma BlockInPool()
      requires Valid()
      ensures inBlock <= pool.txs
    {}

    /** addPackageTxs. order is the walk over mapTx. The log tells every evaluation: it leads
        from the block at the start to the one at the end, and its last member alone ends the
        selection. When nothing ends it, every transaction of the walk is in the block or was
        looked at, and had at that point a package that did not fit or was not admissible. */
    method AddPackageTxs(order: seq<Tx>) returns (stop: Stop, ghost log: seq<Evaluation>)
      requires PoolOk(pool) && Valid() && WithinLimits() && forall t :: t in order ==> t in pool.txs
      modifies this
      ensures Valid() && WithinLimits() && old(vtx) <= vtx
      ensures Logged(RulesOf(order), old(vtx), log, vtx) && GoesOn(RulesOf(order), log)
      ensures stop == StopOf(RulesOf(order), log)
      ensures stop == Exhausted ==> forall t :: t in order ==> t in vtx || t in Iters(log)
      ensures stop == Exhausted ==>
                forall t :: t in order ==> t in inBlock || Rejected(pool, admissible, nBlockMaxWeight, vtx, t)
      ensures old(vtx) == [] && order != [] ==> log != [] && log[0].iter == order[0]
    {
      hide PoolOk, TotalsOk, GoodBlock, AllRecorded, WithinLimits, AllRejected, Rejected, Considered, Logged, GoesOn,
           StopOf, Streak, Iters;
      ghost var start, c := vtx, RulesOf(order);
      var mod, failed: set<Tx> := map[], {};
      ghost var rejected: set<Tx> := {};
      log := [];
      BlockIsSet();
      NothingLogged(c, start);
      NothingRecorded(pool, inBlock);
      NothingConsidered(pool, admissible, nBlockMaxWeight, vtx, order, inBlock);
      assert {} + inBlock == inBlock;
      mod := UpdatePackagesForAdded(pool, inBlock, mod, {}, failed);
      NothingConsideredYet(order, inBlock, mod);
      if inBlock == {} { NothingModified(pool, mod, failed); }
      var mi: nat, nConsecutiveFailed := 0, 0;
      while mi < |order| || mod != map[]
        invariant Selecting(order, start, mi, mod, failed, nConsecutiveFailed, rejected, log)
        decreases pool.txs - inBlock, |order| - mi, mod.Keys
      {
        if mi < |order| && (order[mi] in mod || order[mi] in inBlock || order[mi] in failed) {
          if log == [] && start == [] { NothingSkipped(c, order, mi, mod, failed, nConsecutiveFailed, rejected); }
          ConsideredNext(order, mi, inBlock, mod, rejected);
          mi := mi + 1;
          continue;
        }
        stop, mi, mod, failed, nConsecutiveFailed, rejected, log :=
          Turn(order, start, mi, mod, failed, nConsecutiveFailed, rejected, log);
        if stop != Exhausted {
          return;
        }
      }
      BlockIsSet();
      AllConsidered(pool, admissible, nBlockMaxWeight, vtx, order, inBlock, mod, rejected);
      return Exhausted, log;
    }

    lemma NothingSkipped(c: Rules, order: seq<Tx>, mi: nat, mod: map<Tx, ModEntry>, failed: set<Tx>, n: int,
                         rejected: set<Tx>)
      requires Selecting(order, [], mi, mod, failed, n, rejected, []) && order != []
      ensures mod == map[] && inBlock == {} && failed == {}
    {
      hide GoodBlock, AllRecorded, AllRejected, Considered, GoesOn, StopOf, Streak;
    }

    /** By the pool's totals, t reaches the minimum fee together with its ancestors. */
    ghost predicate Pays(t: Tx) {
      pool.modFeesWithAncestors(t) >= blockMinFee(pool.sizeWithAncestors(t))
    }

    /** By the pool's totals, t fits an empty block with its ancestors, all admissible. */
    ghost predicate Mineable(t: Tx) {
      && 4000 + 4 * pool.sizeWithAncestors(t) < nBlockMaxWeight && 400 + pool.sigopsWithAncestors(t) < 80000
      && forall u :: u in WithAncestors(pool, t) ==> admissible(u)
    }

    lemma LastBlock(c: Rules, log: seq<Evaluation>)
      requires Logged(c, [], log, vtx)
      ensures StopOf(c, log) == NearlyFull ==>
                Streak(log) > 1000 && 4000 + Sum(c.pool.weight, SetOf(vtx)) > c.limit - 4000
    {
      hide Sum, Streak, Evaluates;
    }

    /** Selection as CreateNewBlock performs it, from a block that is reset first: whatever
        the fees, the block is ancestor-closed with every parent first and nothing twice, and
        stays below the limits. */
    method SelectTransactions(order: seq<Tx>) returns (stop: Stop, ghost log: seq<Evaluation>)
      requires PoolOk(pool) && nBlockMaxWeight >= 4000 && forall t :: t in order ==> t in pool.txs
      modifies this
      ensures NoDuplicates(vtx) && ParentsFirst(pool, vtx) && AncestorClosed(pool, SetOf(vtx))
      ensures forall t :: t in vtx ==> admissible(t)
      ensures 4000 + Sum(pool.weight, SetOf(vtx)) == nBlockWeight <= nBlockMaxWeight
      ensures 400 + Sum(pool.sigops, SetOf(vtx)) == nBlockSigOpsCost < 80000
      ensures nFees == Total(Each(pool.fee, vtx)) && nBlockTx == |vtx|
      ensures stop == Exhausted ==>
                forall t :: t in order ==> t in vtx || Rejected(pool, admissible, nBlockMaxWeight, vtx, t)
      ensures stop == Exhausted ==>
                forall t :: t in order ==> t in vtx || Unfit(pool, admissible, nBlockMaxWeight, SetOf(vtx), t)
      ensures Logged(RulesOf(order), [], log, vtx) && GoesOn(RulesOf(order), log) && stop == StopOf(RulesOf(order), log)
      ensures order != [] && (forall t :: t in order ==> !Pays(t)) ==> stop == LowFee && vtx == []
      ensures order != [] && Pays(order[0]) && Mineable(order[0]) ==> WithAncestors(pool, order[0]) <= SetOf(vtx)
      ensures stop == NearlyFull ==> Streak(log) > 1000 && nBlockWeight > nBlockMaxWeight - 4000
    {
      hide PoolOk, NoDuplicates, ParentsFirst, Each, Rejected, Unfit, Logged, GoesOn, Sum, Streak, Total;
      ResetBlock();
      stop, log := AddPackageTxs(order);
      WeightIs();
      if order != [] && (forall t :: t in order ==> !Pays(t)) {
        NothingPays(RulesOf(order), log, vtx);
      }
      if order != [] && Pays(order[0]) && Mineable(order[0]) {
        FirstPackageTaken(RulesOf(order), log, vtx);
      }
      LastBlock(RulesOf(order), log);
      forall t | stop == Exhausted && t in order && t !in vtx
        ensures Unfit(pool, admissible, nBlockMaxWeight, SetOf(vtx), t)
      {
        RejectedForGood(pool, admissible, nBlockMaxWeight, vtx, t);
      }
      GoodBlockClosed(pool, admissible, vtx);
      if vtx == [] {
        assert nBlockWeight <= nBlockMaxWeight by { EmptySum(pool, vtx); }
      }
    }
  }

  lemma EmptySum(p: Pool, vtx: seq<Tx>)
    requires vtx == []
    ensures Sum(p.weight, SetOf(vtx)) == 0
  {
  }
}
