/** The packages that BlockAssembler (src/miner.cpp, src/miner.h) works with: the memory pool,
    the records of transactions some of whose ancestors are in the block, the order within a
    package, and what it means to be left out. */
module Miner {
  import opened Counting

  /** A transaction, by its hash. */
  type Tx = nat

  /** The memory pool as a finite dependency graph. */
  datatype Pool = Pool(
    txs: set<Tx>,
    anc: Tx -> set<Tx>,
    size: Tx -> nat,
    weight: Tx -> nat,
    sigops: Tx -> nat,
    fee: Tx -> int,
    modFee: Tx -> int,
    sizeWithAncestors: Tx -> int,
    modFeesWithAncestors: Tx -> int,
    sigopsWithAncestors: Tx -> int)

  /** Ancestors are in the pool, closed under ancestors and acyclic, and the totals the pool
      keeps for a transaction and its ancestors are the sums over them. */
  ghost predicate PoolOk(p: Pool) {
    && (forall t :: t in p.txs ==>
                      && p.sizeWithAncestors(t) == Sum(p.size, WithAncestors(p, t))
                      && p.sigopsWithAncestors(t) == Sum(p.sigops, WithAncestors(p, t)))
    && (forall t :: t in p.txs ==> p.anc(t) <= p.txs && t !in p.anc(t) && p.weight(t) <= 4 * p.size(t))
    && (forall t, a :: t in p.txs && a in p.anc(t) ==> p.anc(a) <= p.anc(t))
  }

  function WithAncestors(p: Pool, t: Tx): set<Tx> { p.anc(t) + {t} }

  /** CalculateDescendants: a transaction and everything that depends on it. */
  function Descendants(p: Pool, t: Tx): set<Tx> {
    set d | d in p.txs && t in WithAncestors(p, d)
  }

  // ----- Sums over sets -----

  ghost function Sum(f: Tx -> nat, s: set<Tx>): nat {
    if s == {} then 0
    else
      var t :| t in s;
      f(t) + Sum(f, s - {t})
  }

  lemma {:induction false} SumRemove(f: Tx -> nat, s: set<Tx>, t: Tx)
    requires t in s
    ensures Sum(f, s) == f(t) + Sum(f, s - {t})
    decreases |s|
  {
    var u :| u in s && Sum(f, s) == f(u) + Sum(f, s - {u});
    if u != t {
      SumRemove(f, s - {u}, t);
      SumRemove(f, s - {t}, u);
      assert s - {u} - {t} == s - {t} - {u};
    }
  }

  lemma SumAdd(f: Tx -> nat, s: set<Tx>, t: Tx)
    requires t !in s
    ensures Sum(f, s + {t}) == Sum(f, s) + f(t)
  {
    SumRemove(f, s + {t}, t);
    assert s + {t} - {t} == s;
  }

  lemma {:induction false} SumSubset(f: Tx -> nat, s: set<Tx>, u: set<Tx>)
    requires s <= u
    ensures Sum(f, s) <= Sum(f, u)
    decreases |u|
  {
    if s != {} {
      var t :| t in s;
      SumRemove(f, s, t);
      SumRemove(f, u, t);
      SumSubset(f, s - {t}, u - {t});
    }
  }

  lemma {:induction false} SumDisjoint(f: Tx -> nat, s: set<Tx>, u: set<Tx>)
    requires s !! u
    ensures Sum(f, s + u) == Sum(f, s) + Sum(f, u)
    decreases |u|
  {
    if u == {} {
      assert s + u == s;
    } else {
      var t :| t in u;
      SumRemove(f, u, t);
      SumRemove(f, s + u, t);
      assert s + u - {t} == s + (u - {t});
      SumDisjoint(f, s, u - {t});
    }
  }

  lemma {:induction false} SumWeights(p: Pool, s: set<Tx>)
    requires forall t :: t in s ==> p.weight(t) <= 4 * p.size(t)
    ensures Sum(p.weight, s) <= 4 * Sum(p.size, s)
    decreases |s|
  {
    if s != {} {
      var t :| t in s;
      SumRemove(p.weight, s, t);
      SumRemove(p.size, s, t);
      SumWeights(p, s - {t});
    }
  }

  /** Fees may be negative once they are modified. */
  ghost function SumFees(f: Tx -> int, s: set<Tx>): int {
    if s == {} then 0
    else
      var t :| t in s;
      f(t) + SumFees(f, s - {t})
  }

  lemma {:induction false} FeesRemove(f: Tx -> int, s: set<Tx>, t: Tx)
    requires t in s
    ensures SumFees(f, s) == f(t) + SumFees(f, s - {t})
    decreases |s|
  {
    var u :| u in s && SumFees(f, s) == f(u) + SumFees(f, s - {u});
    if u != t {
      FeesRemove(f, s - {u}, t);
      FeesRemove(f, s - {t}, u);
      assert s - {u} - {t} == s - {t} - {u};
    }
  }

  lemma FeesAdd(f: Tx -> int, s: set<Tx>, t: Tx)
    requires t !in s
    ensures SumFees(f, s + {t}) == SumFees(f, s) + f(t)
  {
    FeesRemove(f, s + {t}, t);
    assert s + {t} - {t} == s;
  }

  lemma {:induction false} FeesDisjoint(f: Tx -> int, s: set<Tx>, u: set<Tx>)
    requires s !! u
    ensures SumFees(f, s + u) == SumFees(f, s) + SumFees(f, u)
    decreases |u|
  {
    if u == {} {
      assert s + u == s;
    } else {
      var t :| t in u;
      FeesRemove(f, u, t);
      FeesRemove(f, s + u, t);
      assert s + u - {t} == s + (u - {t});
      FeesDisjoint(f, s, u - {t});
    }
  }

  lemma {:induction false} FeesSame(f: Tx -> int, g: Tx -> int, s: set<Tx>)
    requires forall t :: t in s ==> f(t) == g(t)
    ensures SumFees(f, s) == SumFees(g, s)
    decreases |s|
  {
    if s != {} {
      var t :| t in s;
      FeesRemove(f, s, t);
      FeesRemove(g, s, t);
      FeesSame(f, g, s - {t});
    }
  }

  // ----- Entries whose ancestor state changed -----

  /** CTxMemPoolModifiedEntry */
  datatype ModEntry = ModEntry(nSizeWithAncestors: int, nModFeesWithAncestors: int, nSigOpCostWithAncestors: int)

  /** What is still missing from the block for t to be included. */
  ghost function Open(p: Pool, t: Tx, included: set<Tx>): set<Tx> {
    WithAncestors(p, t) - included
  }

  /** The recorded totals are at least those over what is still missing. */
  ghost predicate Covers(p: Pool, m: ModEntry, open: set<Tx>) {
    m.nSizeWithAncestors >= Sum(p.size, open) && m.nSigOpCostWithAncestors >= Sum(p.sigops, open)
  }

  ghost predicate Exact(p: Pool, m: ModEntry, open: set<Tx>) {
    m.nSizeWithAncestors == Sum(p.size, open) && m.nSigOpCostWithAncestors == Sum(p.sigops, open)
  }

  function FromEntry(p: Pool, t: Tx): ModEntry {
    ModEntry(p.sizeWithAncestors(t), p.modFeesWithAncestors(t), p.sigopsWithAncestors(t))
  }

  lemma FromEntryCovers(p: Pool, t: Tx, included: set<Tx>)
    requires PoolOk(p) && t in p.txs
    ensures Covers(p, FromEntry(p, t), Open(p, t, included))
    ensures WithAncestors(p, t) !! included ==> IsRecord(p, FromEntry(p, t), t, included)
  {
    SumSubset(p.size, Open(p, t, included), WithAncestors(p, t));
    SumSubset(p.sigops, Open(p, t, included), WithAncestors(p, t));
    if WithAncestors(p, t) !! included {
      assert Open(p, t, included) == WithAncestors(p, t);
    }
  }

  /** Subtracting a transaction that is now included. */
  function Reduced(p: Pool, m: ModEntry, it: Tx, feeOf: int): ModEntry {
    ModEntry(m.nSizeWithAncestors - p.size(it), m.nModFeesWithAncestors - feeOf,
             m.nSigOpCostWithAncestors - p.sigops(it))
  }

  lemma ReducedCovers(p: Pool, m: ModEntry, t: Tx, it: Tx, included: set<Tx>, feeOf: int)
    requires it in WithAncestors(p, t) && it !in included
    ensures Covers(p, m, Open(p, t, included)) ==> Covers(p, Reduced(p, m, it, feeOf), Open(p, t, included + {it}))
    ensures Exact(p, m, Open(p, t, included)) ==> Exact(p, Reduced(p, m, it, feeOf), Open(p, t, included + {it}))
  {
    var open := Open(p, t, included);
    assert Open(p, t, included + {it}) == open - {it};
    SumRemove(p.size, open, it);
    SumRemove(p.sigops, open, it);
  }

  /** The recorded fees: of the ancestors in `included`, the first one accounted for took its
      modified fee away, the others their unmodified fees. */
  ghost predicate FeeRecord(p: Pool, m: ModEntry, t: Tx, included: set<Tx>) {
    var mine := WithAncestors(p, t) * included;
    if mine == {} then m.nModFeesWithAncestors == p.modFeesWithAncestors(t)
    else exists first :: first in mine && FeeAfter(p, m, t, mine, first)
  }

  ghost predicate FeeAfter(p: Pool, m: ModEntry, t: Tx, mine: set<Tx>, first: Tx) {
    m.nModFeesWithAncestors == p.modFeesWithAncestors(t) - p.modFee(first) - SumFees(p.fee, mine - {first})
  }

  lemma FeeOfFirst(p: Pool, t: Tx, it: Tx, included: set<Tx>)
    requires it in WithAncestors(p, t) && WithAncestors(p, t) !! included
    ensures FeeRecord(p, Reduced(p, FromEntry(p, t), it, p.modFee(it)), t, included + {it})
  {
    var mine := WithAncestors(p, t) * (included + {it});
    assert mine - {it} == {};
    assert FeeAfter(p, Reduced(p, FromEntry(p, t), it, p.modFee(it)), t, mine, it);
  }

  lemma FeeOfNext(p: Pool, m: ModEntry, t: Tx, it: Tx, included: set<Tx>)
    requires it in WithAncestors(p, t) && it !in included && WithAncestors(p, t) * included != {}
    requires FeeRecord(p, m, t, included)
    ensures FeeRecord(p, Reduced(p, m, it, p.fee(it)), t, included + {it})
  {
    hide SumFees;
    var mine := WithAncestors(p, t) * included;
    var first :| first in mine && FeeAfter(p, m, t, mine, first);
    assert WithAncestors(p, t) * (included + {it}) == mine + {it};
    assert mine + {it} - {first} == mine - {first} + {it};
    FeesAdd(p.fee, mine - {first}, it);
    assert FeeAfter(p, Reduced(p, m, it, p.fee(it)), t, mine + {it}, first);
  }

  /** How far the recorded fees are from the modified fees of what is missing: every included
      ancestor but one takes its unmodified fee away (src/miner.h:125). */
  lemma FeeRecordMeans(p: Pool, m: ModEntry, t: Tx, included: set<Tx>)
    requires p.modFeesWithAncestors(t) == SumFees(p.modFee, WithAncestors(p, t)) && FeeRecord(p, m, t, included)
    ensures var mine, open := WithAncestors(p, t) * included, Open(p, t, included);
            if mine == {} then m.nModFeesWithAncestors == SumFees(p.modFee, open)
            else
              exists first :: first in mine && m.nModFeesWithAncestors - SumFees(p.modFee, open) ==
                                SumFees(p.modFee, mine - {first}) - SumFees(p.fee, mine - {first})
  {
    hide SumFees;
    var mine, open := WithAncestors(p, t) * included, Open(p, t, included);
    assert WithAncestors(p, t) == open + mine;
    FeesDisjoint(p.modFee, open, mine);
    if mine == {} {
      assert open == WithAncestors(p, t);
    } else {
      var first :| first in mine && FeeAfter(p, m, t, mine, first);
      FeesRemove(p.modFee, mine, first);
    }
  }

  /** Without modified fees, the recorded fees are those of what is missing. */
  lemma PlainFeeRecord(p: Pool, m: ModEntry, t: Tx, included: set<Tx>)
    requires p.modFeesWithAncestors(t) == SumFees(p.modFee, WithAncestors(p, t)) && FeeRecord(p, m, t, included)
    requires forall u :: u in WithAncestors(p, t) ==> p.fee(u) == p.modFee(u)
    ensures m.nModFeesWithAncestors == SumFees(p.modFee, Open(p, t, included))
  {
    hide SumFees, FeeRecord;
    FeeRecordMeans(p, m, t, included);
    var mine, open := WithAncestors(p, t) * included, Open(p, t, included);
    if mine != {} {
      var first :| first in mine && m.nModFeesWithAncestors - SumFees(p.modFee, open) ==
        SumFees(p.modFee, mine - {first}) - SumFees(p.fee, mine - {first});
      FeesSame(p.fee, p.modFee, mine - {first});
    }
  }

  /** What is recorded about t once the transactions in `included` have been accounted for.
      Nothing is recorded for members of the block, and nothing without an included ancestor.
      A recorded total is never too small. For a transaction that has not failed, it is exact,
      and it is recorded as soon as one of its ancestors is included. */
  ghost predicate Recorded(p: Pool, mod: map<Tx, ModEntry>, t: Tx, included: set<Tx>, block: set<Tx>, failed: set<Tx>) {
    && (t in mod ==>
          && t in p.txs && t !in block && Covers(p, mod[t], Open(p, t, included))
          && WithAncestors(p, t) * included != {})
    && (t in p.txs && t !in block && t !in failed ==>
          if t in mod then IsRecord(p, mod[t], t, included) else p.anc(t) !! included)
  }

  ghost predicate IsRecord(p: Pool, m: ModEntry, t: Tx, included: set<Tx>) {
    Exact(p, m, Open(p, t, included)) && FeeRecord(p, m, t, included)
  }

  ghost predicate AllRecorded(p: Pool, mod: map<Tx, ModEntry>, included: set<Tx>, block: set<Tx>, failed: set<Tx>) {
    forall t: Tx :: Recorded(p, mod, t, included, block, failed)
  }

  /** The two branches that account for the inclusion of `it` in descendant d. A new record
      loses the modified fee of `it`, an existing one its unmodified fee. */
  function Accounted(p: Pool, mod: map<Tx, ModEntry>, it: Tx, d: Tx): map<Tx, ModEntry> {
    if d in mod
    then mod[d := Reduced(p, mod[d], it, p.fee(it))]
    else mod[d := Reduced(p, FromEntry(p, d), it, p.modFee(it))]
  }

  lemma AccountedGrows(p: Pool, mod: map<Tx, ModEntry>, it: Tx, d: Tx)
    ensures forall t :: t in mod ==> t in Accounted(p, mod, it, d)
  {
  }

  lemma AccountedRecorded(p: Pool, mod: map<Tx, ModEntry>, it: Tx, d: Tx, included: set<Tx>, block: set<Tx>,
                          failed: set<Tx>)
    requires PoolOk(p) && d in p.txs && it in WithAncestors(p, d) && it !in included
    requires included <= block && d !in block
    requires Recorded(p, mod, d, included, block, failed)
    ensures Recorded(p, Accounted(p, mod, it, d), d, included + {it}, block, failed)
  {
    hide Covers, Exact, Open, FeeRecord, Reduced, FromEntry, PoolOk;
    assert it in WithAncestors(p, d) * (included + {it});
    if d in mod {
      ReducedCovers(p, mod[d], d, it, included, p.fee(it));
      if d !in failed { FeeOfNext(p, mod[d], d, it, included); }
    } else {
      FromEntryCovers(p, d, included);
      ReducedCovers(p, FromEntry(p, d), d, it, included, p.modFee(it));
      if d !in failed { FeeOfFirst(p, d, it, included); }
    }
  }

  /** A record made anew after t failed, when some of its ancestors were included before, is
      too large by exactly what those ancestors add up to. */
  lemma ReinsertedExcess(p: Pool, mod: map<Tx, ModEntry>, it: Tx, t: Tx, included: set<Tx>)
    requires PoolOk(p) && t in p.txs && t !in mod && it in WithAncestors(p, t) && it !in included
    ensures var m := Accounted(p, mod, it, t)[t];
            var open := Open(p, t, included + {it});
            && m.nSizeWithAncestors == Sum(p.size, open) + Sum(p.size, WithAncestors(p, t) * included)
            && m.nSigOpCostWithAncestors == Sum(p.sigops, open) + Sum(p.sigops, WithAncestors(p, t) * included)
            && (Exact(p, m, open) <==>
                  Sum(p.size, WithAncestors(p, t) * included) == 0 &&
                    Sum(p.sigops, WithAncestors(p, t) * included) == 0)
  {
    hide Sum;
    SplitTotal(p.size, WithAncestors(p, t), included, it);
    SplitTotal(p.sigops, WithAncestors(p, t), included, it);
  }

  lemma SplitTotal(f: Tx -> nat, all: set<Tx>, included: set<Tx>, it: Tx)
    requires it in all && it !in included
    ensures Sum(f, all) == f(it) + Sum(f, all - (included + {it})) + Sum(f, all * included)
  {
    SumRemove(f, all, it);
    assert all - {it} == (all - (included + {it})) + all * included;
    SumDisjoint(f, all - (included + {it}), all * included);
  }

  /** Including `it` changes nothing for what does not depend on it. */
  lemma UnrelatedRecorded(p: Pool, mod: map<Tx, ModEntry>, it: Tx, t: Tx, included: set<Tx>, block: set<Tx>,
                          failed: set<Tx>)
    requires t in p.txs ==> it !in WithAncestors(p, t) || t in block
    requires Recorded(p, mod, t, included, block, failed)
    ensures Recorded(p, mod, t, included + {it}, block, failed)
  {
    if t in p.txs && t !in block {
      assert Open(p, t, included + {it}) == Open(p, t, included);
      assert WithAncestors(p, t) * (included + {it}) == WithAncestors(p, t) * included;
    }
  }

  lemma OthersRecorded(p: Pool, mod: map<Tx, ModEntry>, mod': map<Tx, ModEntry>, t: Tx,
                       included: set<Tx>, block: set<Tx>, failed: set<Tx>)
    requires t in mod <==> t in mod'
    requires t in mod ==> mod[t] == mod'[t]
    requires Recorded(p, mod, t, included, block, failed)
    ensures Recorded(p, mod', t, included, block, failed)
  {
  }

  /** The descendants in `updated` have learned of `it`, the others not yet. */
  ghost predicate Halfway(p: Pool, mod: map<Tx, ModEntry>, it: Tx, updated: set<Tx>,
                          included: set<Tx>, block: set<Tx>, failed: set<Tx>) {
    && (forall t: Tx :: t in updated ==> Recorded(p, mod, t, included + {it}, block, failed))
    && (forall t: Tx :: t !in updated ==> Recorded(p, mod, t, included, block, failed))
  }

  lemma HalfwayStep(p: Pool, mod: map<Tx, ModEntry>, mod': map<Tx, ModEntry>, it: Tx, d: Tx, updated: set<Tx>,
                    included: set<Tx>, block: set<Tx>, failed: set<Tx>)
    requires PoolOk(p) && d in p.txs && it in WithAncestors(p, d) && it !in included
    requires included <= block && d !in updated
    requires Halfway(p, mod, it, updated, included, block, failed)
    requires mod' == if d in block then mod else Accounted(p, mod, it, d)
    ensures Halfway(p, mod', it, updated + {d}, included, block, failed)
  {
    hide Recorded, PoolOk, WithAncestors, Reduced, FromEntry;
    assert Recorded(p, mod, d, included, block, failed);
    if d in block {
      UnrelatedRecorded(p, mod, it, d, included, block, failed);
    } else {
      AccountedRecorded(p, mod, it, d, included, block, failed);
      forall t: Tx | t in updated
        ensures Recorded(p, mod', t, included + {it}, block, failed)
      {
        OthersRecorded(p, mod, mod', t, included + {it}, block, failed);
      }
      forall t: Tx | t !in updated && t != d
        ensures Recorded(p, mod', t, included, block, failed)
      {
        OthersRecorded(p, mod, mod', t, included, block, failed);
      }
    }
  }

  lemma HalfwayDone(p: Pool, mod: map<Tx, ModEntry>, it: Tx, updated: set<Tx>,
                    included: set<Tx>, block: set<Tx>, failed: set<Tx>)
    requires Halfway(p, mod, it, updated, included, block, failed)
    requires forall t :: t in Descendants(p, it) ==> t in updated
    ensures AllRecorded(p, mod, included + {it}, block, failed)
  {
    hide Recorded, WithAncestors;
    forall t: Tx
      ensures Recorded(p, mod, t, included + {it}, block, failed)
    {
      if t !in updated {
        assert Recorded(p, mod, t, included, block, failed);
        UnrelatedRecorded(p, mod, it, t, included, block, failed);
      }
    }
  }

  /** The inner loop of UpdatePackagesForAdded: every descendant of `it` learns of it. */
  method UpdateDescendants(p: Pool, it: Tx, added: set<Tx>, mod0: map<Tx, ModEntry>,
                           ghost included: set<Tx>, ghost block: set<Tx>, ghost failed: set<Tx>)
    returns (mod: map<Tx, ModEntry>)
    requires PoolOk(p) && included <= block && it !in included
    requires forall d :: d in Descendants(p, it) ==> (d in block <==> d in added)
    requires AllRecorded(p, mod0, included, block, failed)
    ensures AllRecorded(p, mod, included + {it}, block, failed)
    ensures forall t :: t in mod0 ==> t in mod
    ensures forall t: Tx :: Updated(p, mod0, mod, it, t, t in Descendants(p, it) && t !in added)
  {
    hide PoolOk, Halfway, WithAncestors, Accounted, Updated;
    mod := mod0;
    var rest := Descendants(p, it);
    ghost var updated: set<Tx> := {};
    assert Halfway(p, mod, it, updated, included, block, failed) by {
      HalfwayStart(p, mod, it, included, block, failed);
    }
    NoneUpdated(p, mod, it);
    while rest != {}
      invariant rest + updated == Descendants(p, it) && rest !! updated
      invariant Halfway(p, mod, it, updated, included, block, failed)
      invariant forall t :: t in mod0 ==> t in mod
      invariant forall t: Tx :: Updated(p, mod0, mod, it, t, t in updated && t !in added)
      decreases rest
    {
      var d :| d in rest;
      ghost var before := mod;
      UpdatedNext(p, mod0, mod, it, d, updated, added);
      if d !in added {
        AccountedGrows(p, mod, it, d);
        mod := Accounted(p, mod, it, d);
      }
      HalfwayStep(p, before, mod, it, d, updated, included, block, failed);
      rest, updated := rest - {d}, updated + {d};
    }
    HalfwayDone(p, mod, it, updated, included, block, failed);
  }

  /** Whether `it` has been accounted for in the record of t, or the record is as it was. */
  ghost predicate Updated(p: Pool, was: map<Tx, ModEntry>, mod: map<Tx, ModEntry>, it: Tx, t: Tx, done: bool) {
    if done then t in mod && mod[t] == Accounted(p, was, it, t)[t]
    else (t in mod <==> t in was) && (t in mod ==> mod[t] == was[t])
  }

  lemma NoneUpdated(p: Pool, mod: map<Tx, ModEntry>, it: Tx)
    ensures forall t: Tx :: Updated(p, mod, mod, it, t, false)
  {
  }

  lemma UpdatedNext(p: Pool, was: map<Tx, ModEntry>, mod: map<Tx, ModEntry>, it: Tx, d: Tx, updated: set<Tx>,
                    added: set<Tx>)
    requires d !in updated && forall t: Tx :: Updated(p, was, mod, it, t, t in updated && t !in added)
    ensures var now := if d !in added then Accounted(p, mod, it, d) else mod;
            forall t: Tx :: Updated(p, was, now, it, t, t in updated + {d} && t !in added)
  {
    var now := if d !in added then Accounted(p, mod, it, d) else mod;
    assert Updated(p, was, mod, it, d, false);
    forall t: Tx ensures Updated(p, was, now, it, t, t in updated + {d} && t !in added) {
      assert Updated(p, was, mod, it, t, t in updated && t !in added);
    }
  }

  /** The record from which the additions are subtracted. */
  ghost function BaseEntry(p: Pool, mod: map<Tx, ModEntry>, t: Tx): ModEntry {
    if t in mod then mod[t] else FromEntry(p, t)
  }

  /** The record of t lost the sizes and signature operations of exactly those of its
      ancestors that are in `done`; a record is made if there are any. */
  ghost predicate Subtracted(p: Pool, was: map<Tx, ModEntry>, mod: map<Tx, ModEntry>, done: set<Tx>, t: Tx,
                             skipped: bool) {
    var mine := done * WithAncestors(p, t);
    if t in p.txs && !skipped && mine != {} then
      && t in mod
      && mod[t].nSizeWithAncestors == BaseEntry(p, was, t).nSizeWithAncestors - Sum(p.size, mine)
      && mod[t].nSigOpCostWithAncestors == BaseEntry(p, was, t).nSigOpCostWithAncestors - Sum(p.sigops, mine)
    else (t in mod <==> t in was) && (t in mod ==> mod[t] == was[t])
  }

  lemma NothingSubtracted(p: Pool, mod: map<Tx, ModEntry>, added: set<Tx>)
    ensures forall t: Tx :: Subtracted(p, mod, mod, {}, t, t in added)
  {
  }

  lemma SubtractedNext(p: Pool, was: map<Tx, ModEntry>, mod: map<Tx, ModEntry>, now: map<Tx, ModEntry>, it: Tx,
                       done: set<Tx>, t: Tx, skipped: bool)
    requires it !in done && Subtracted(p, was, mod, done, t, skipped)
    requires Updated(p, mod, now, it, t, t in Descendants(p, it) && !skipped)
    ensures Subtracted(p, was, now, done + {it}, t, skipped)
  {
    hide Sum;
    var mine := done * WithAncestors(p, t);
    if it in WithAncestors(p, t) {
      assert (done + {it}) * WithAncestors(p, t) == mine + {it};
      SumAdd(p.size, mine, it);
      SumAdd(p.sigops, mine, it);
      EmptySums(p);
    } else {
      assert (done + {it}) * WithAncestors(p, t) == mine;
    }
  }

  lemma EmptySums(p: Pool)
    ensures Sum(p.size, {}) == 0 && Sum(p.sigops, {}) == 0
  {
  }

  lemma HalfwayStart(p: Pool, mod: map<Tx, ModEntry>, it: Tx, included: set<Tx>, block: set<Tx>, failed: set<Tx>)
    requires AllRecorded(p, mod, included, block, failed)
    ensures Halfway(p, mod, it, {}, included, block, failed)
  {
    hide Recorded;
  }

  // ----- The block under construction -----

  ghost function SetOf(s: seq<Tx>): set<Tx> { set t | t in s }

  /** Every transaction comes after all of its ancestors. */
  ghost predicate ParentsFirst(p: Pool, vtx: seq<Tx>) {
    forall i :: 0 <= i < |vtx| ==> p.anc(vtx[i]) <= SetOf(vtx[..i])
  }

  ghost predicate NoDuplicates(vtx: seq<Tx>) {
    forall i, j :: 0 <= i < j < |vtx| ==> vtx[i] != vtx[j]
  }

  ghost predicate AncestorClosed(p: Pool, s: set<Tx>) {
    forall t :: t in s ==> t in p.txs && p.anc(t) <= s
  }

  /** Fewer ancestors for an ancestor: sorting by ancestor count puts parents first. */
  lemma AncestorCountsGrow(p: Pool, a: Tx, t: Tx)
    requires PoolOk(p) && t in p.txs && a in p.anc(t)
    ensures |p.anc(a)| < |p.anc(t)|
  {
    assert p.anc(a) <= p.anc(t) - {a};
    SubsetCount(p.anc(a), p.anc(t) - {a});
  }

  /** UpdatePackagesForAdded: mod0 has been kept up to date for the block as it was before
      the transactions in `added` joined it. */
  method UpdatePackagesForAdded(p: Pool, added: set<Tx>, mod0: map<Tx, ModEntry>, ghost before: set<Tx>,
                                ghost failed: set<Tx>)
    returns (mod: map<Tx, ModEntry>)
    requires PoolOk(p) && AncestorClosed(p, before) && added !! before
    requires AllRecorded(p, mod0, before, before + added, failed)
    ensures AllRecorded(p, mod, before + added, before + added, failed)
    ensures forall t :: t in mod0 ==> t in mod
    ensures forall t: Tx :: Subtracted(p, mod0, mod, added, t, t in added)
  {
    hide AllRecorded, PoolOk, Descendants, AncestorClosed, Subtracted, Updated;
    mod := mod0;
    var rest := added;
    ghost var block := before + added;
    ghost var included, done: set<Tx> := before, {};
    NothingSubtracted(p, mod, added);
    while rest != {}
      invariant rest <= added && rest !! included && done !! rest && done + rest == added
      invariant included <= block <= included + rest
      invariant AllRecorded(p, mod, included, block, failed)
      invariant forall t :: t in mod0 ==> t in mod
      invariant forall t: Tx :: Subtracted(p, mod0, mod, done, t, t in added)
      decreases rest
    {
      var it :| it in rest;
      DescendantsJoin(p, before, added, it);
      ghost var was := mod;
      mod := UpdateDescendants(p, it, added, mod, included, block, failed);
      forall t: Tx ensures Subtracted(p, mod0, mod, done + {it}, t, t in added) {
        assert Updated(p, was, mod, it, t, t in Descendants(p, it) && t !in added);
        SubtractedNext(p, mod0, was, mod, it, done, t, t in added);
      }
      rest, included, done := rest - {it}, included + {it}, done + {it};
    }
    assert included == block && done == added;
  }

  /** A closed block holds no descendant of a transaction outside it. */
  lemma DescendantsJoin(p: Pool, before: set<Tx>, added: set<Tx>, it: Tx)
    requires AncestorClosed(p, before) && it !in before
    ensures forall d :: d in Descendants(p, it) ==> (d in before + added <==> d in added)
  {
  }

  // ----- A record that is too large -----

  /** Transactions 0 and 1, and their child 2. Transaction 1 counts for more than its weight, as
      signature operations make it. */
  function Family(): Pool {
    Pool({0, 1, 2},
         t => if t == 2 then {0, 1} else {},
         t => if t == 2 then 1000 else 100,
         t => if t == 2 then 4000 else if t == 1 then 100 else 400,
         t => 4,
         t => 1,
         t => 1,
         t => if t == 2 then 1200 else 100,
         t => if t == 2 then 3 else 1,
         t => if t == 2 then 12 else 4)
  }

  lemma SumOfOne(f: Tx -> nat, t: Tx)
    ensures Sum(f, {t}) == f(t)
  {
    assert {} + {t} == {t};
    SumAdd(f, {}, t);
  }

  lemma SumOfFamily(f: Tx -> nat)
    ensures Sum(f, {0, 1, 2}) == f(0) + f(1) + f(2)
  {
    SumOfOne(f, 0);
    assert {0, 1} == {0} + {1} && {0, 1, 2} == {0, 1} + {2};
    SumAdd(f, {0}, 1);
    SumAdd(f, {0, 1}, 2);
  }

  lemma FamilyTotals(t: Tx)
    requires t <= 2
    ensures Family().sizeWithAncestors(t) == Sum(Family().size, WithAncestors(Family(), t))
    ensures Family().sigopsWithAncestors(t) == Sum(Family().sigops, WithAncestors(Family(), t))
  {
    hide Sum;
    var p := Family();
    if t == 2 {
      assert WithAncestors(p, 2) == {0, 1, 2};
      SumOfFamily(p.size);
      SumOfFamily(p.sigops);
    } else {
      assert WithAncestors(p, t) == {t};
      SumOfOne(p.size, t);
      SumOfOne(p.sigops, t);
    }
  }

  lemma FamilyOk()
    ensures PoolOk(Family())
  {
    hide Sum, WithAncestors;
    forall t | t in Family().txs
      ensures Family().sizeWithAncestors(t) == Sum(Family().size, WithAncestors(Family(), t))
      ensures Family().sigopsWithAncestors(t) == Sum(Family().sigops, WithAncestors(Family(), t))
    {
      FamilyTotals(t);
    }
  }

  lemma OneSubtracted(was: map<Tx, ModEntry>, mod: map<Tx, ModEntry>, parent: Tx)
    requires parent < 2 && 2 !in was && Subtracted(Family(), was, mod, {parent}, 2, false)
    ensures 2 in mod && mod[2].nSizeWithAncestors == 1100 && mod[2].nSigOpCostWithAncestors == 8
  {
    hide Sum;
    var p := Family();
    assert {parent} * WithAncestors(p, 2) == {parent};
    SumOfOne(p.size, parent);
    SumOfOne(p.sigops, parent);
  }

  const FAMILY_LIMIT := 8700

  /** The test by size of a package on a block of the family. */
  ghost predicate FamilyFits(block: set<Tx>, packageSize: int) {
    COINBASE_WEIGHT + Sum(Family().weight, block) + WITNESS_SCALE_FACTOR * packageSize < FAMILY_LIMIT
  }

  /** A run over the family: transaction 0 is included, the package of 2 then fails the test by
      size and loses its record, 1 fits and is included, and 2 is recorded again. The new
      record counts transaction 0, which is in the block, once more, and so 2 fails again,
      although by its exact size it would now fit. */
  method ReinsertedIsTooLarge() returns (first: ModEntry, again: ModEntry)
    ensures Exact(Family(), first, Open(Family(), 2, {0})) && !FamilyFits({0}, first.nSizeWithAncestors)
    ensures FamilyFits({0}, Family().size(1))
    ensures again.nSizeWithAncestors == 1100 && Sum(Family().size, Open(Family(), 2, {0, 1})) == 1000
    ensures again.nSigOpCostWithAncestors == 8 && Sum(Family().sigops, Open(Family(), 2, {0, 1})) == 4
    ensures !FamilyFits({0, 1}, again.nSizeWithAncestors)
    ensures FamilyFits({0, 1}, Sum(Family().size, Open(Family(), 2, {0, 1})))
  {
    hide Sum, PoolOk, AllRecorded;
    var p := Family();
    FamilyOk();
    NothingRecorded(p, {0});
    assert AncestorClosed(p, {}) && AncestorClosed(p, {0}) && {} + {0} == {0} && {} + {2} == {2};
    var mod := UpdatePackagesForAdded(p, {0}, map[], {}, {});
    SumOfOne(p.weight, 0);
    OneSubtracted(map[], mod, 0);
    first := mod[2];
    EntryTotals(p, mod, {0}, {}, 2);
    EraseFailed(p, mod, {0}, 2, {});
    EraseAdded(p, mod - {2}, {0}, {1}, {2});
    mod := mod - {2} - {1};
    ghost var was := mod;
    mod := UpdatePackagesForAdded(p, {1}, mod, {0}, {2});
    OneSubtracted(was, mod, 1);
    again := mod[2];
    assert {0, 1} == {0} + {1};
    SumAdd(p.weight, {0}, 1);
    assert Open(p, 2, {0, 1}) == {2};
    SumOfOne(p.size, 2);
    SumOfOne(p.sigops, 2);
  }

  // ----- Sorting a package -----

  /** CompareTxIterByAncestorCount: by the number of ancestors, then by hash. */
  predicate Before(p: Pool, t: Tx, u: Tx) {
    |p.anc(t)| < |p.anc(u)| || (|p.anc(t)| == |p.anc(u)| && t < u)
  }

  /** By the number of ancestors, and among equals by hash. */
  ghost predicate SortedForBlock(p: Pool, s: seq<Tx>) {
    forall i, j :: 0 <= i < j < |s| ==>
      |p.anc(s[i])| <= |p.anc(s[j])| && (|p.anc(s[i])| == |p.anc(s[j])| ==> s[i] < s[j])
  }

  method FewestAncestors(p: Pool, s: set<Tx>) returns (t: Tx)
    requires s != {}
    ensures t in s && forall u :: u in s && u != t ==> Before(p, t, u)
  {
    t :| t in s;
    var rest := s - {t};
    while rest != {}
      invariant t in s && rest <= s && t !in rest
      invariant forall u :: u in s && u !in rest && u != t ==> Before(p, t, u)
      decreases rest
    {
      var u :| u in rest;
      if Before(p, u, t) {
        t := u;
      }
      rest := rest - {u};
    }
  }

  lemma AppendSorted(p: Pool, sorted: seq<Tx>, t: Tx)
    requires SortedForBlock(p, sorted) && forall u :: u in sorted ==> Before(p, u, t)
    ensures SortedForBlock(p, sorted + [t])
  {
    forall i | 0 <= i < |sorted| ensures Before(p, sorted[i], t) {
      assert sorted[i] in sorted;
    }
  }

  lemma SortedIsDistinct(p: Pool, sorted: seq<Tx>)
    requires SortedForBlock(p, sorted)
    ensures NoDuplicates(sorted)
  {
  }

  /** The order is total, so a set has only one sorted list. */
  lemma {:induction false} SortedUnique(p: Pool, s: seq<Tx>, u: seq<Tx>)
    requires SortedForBlock(p, s) && SortedForBlock(p, u) && SetOf(s) == SetOf(u)
    ensures s == u
    decreases |s|
  {
    EmptySetOf(s);
    EmptySetOf(u);
    if s != [] {
      assert s[0] in SetOf(u) && u[0] in SetOf(s);
      SortedTail(p, s);
      SortedTail(p, u);
      assert s[0] == u[0];
      SortedUnique(p, s[1..], u[1..]);
    }
  }

  lemma EmptySetOf(s: seq<Tx>)
    ensures SetOf(s) == {} <==> s == []
  {
    assert s != [] ==> s[0] in SetOf(s);
  }

  lemma SortedTail(p: Pool, s: seq<Tx>)
    requires SortedForBlock(p, s) && s != []
    ensures SortedForBlock(p, s[1..]) && SetOf(s[1..]) == SetOf(s) - {s[0]}
    ensures forall t :: t in s && t != s[0] ==> Before(p, s[0], t) && !Before(p, t, s[0])
  {
    assert s == [s[0]] + s[1..];
  }

  method SortForBlock(p: Pool, package: set<Tx>) returns (sorted: seq<Tx>)
    ensures SetOf(sorted) == package && NoDuplicates(sorted) && SortedForBlock(p, sorted)
  {
    hide NoDuplicates, SortedForBlock, Before;
    sorted := [];
    var rest := package;
    assert SortedForBlock(p, sorted) by { NothingToSort(p); }
    while rest != {}
      invariant forall t :: t in package <==> t in sorted || t in rest
      invariant SortedForBlock(p, sorted)
      invariant forall t, u :: t in sorted && u in rest ==> Before(p, t, u)
      decreases rest
    {
      var t := FewestAncestors(p, rest);
      AppendSorted(p, sorted, t);
      sorted, rest := sorted + [t], rest - {t};
    }
    SortedIsDistinct(p, sorted);
  }

  lemma NothingToSort(p: Pool)
    ensures SortedForBlock(p, [])
  {
  }

  /** Sorting by ancestor count puts every transaction of a closed package after those of
      its ancestors that are in the package. */
  lemma SortedParentsFirst(p: Pool, block: set<Tx>, sorted: seq<Tx>, i: int)
    requires PoolOk(p) && SetOf(sorted) <= p.txs && SortedForBlock(p, sorted)
    requires forall t :: t in sorted ==> p.anc(t) <= block + SetOf(sorted)
    requires 0 <= i < |sorted|
    ensures p.anc(sorted[i]) <= block + SetOf(sorted[..i])
  {
    hide PoolOk, SortedForBlock;
    forall a | a in p.anc(sorted[i]) && a !in block
      ensures a in sorted[..i]
    {
      assert sorted[i] in SetOf(sorted);
      AncestorCountsGrow(p, a, sorted[i]);
      assert a in SetOf(sorted);
      var k :| 0 <= k < |sorted| && sorted[k] == a;
      FewerComesFirst(p, sorted, k, i);
      assert sorted[..i][k] == a;
    }
  }

  lemma FewerComesFirst(p: Pool, sorted: seq<Tx>, k: int, i: int)
    requires SortedForBlock(p, sorted) && 0 <= k < |sorted| && 0 <= i < |sorted|
    requires |p.anc(sorted[k])| < |p.anc(sorted[i])|
    ensures k < i
  {}

  // ----- Block assembly -----

  const WITNESS_SCALE_FACTOR := 4
  const MAX_BLOCK_SIGOPS_COST := 80000
  const COINBASE_WEIGHT := 4000
  const COINBASE_SIGOPS := 400
  const MAX_CONSECUTIVE_FAILURES := 1000

  /** A list of distinct, admissible pool transactions, each after all its ancestors. */
  ghost predicate GoodBlock(p: Pool, admissible: Tx -> bool, vtx: seq<Tx>) {
    && NoDuplicates(vtx)
    && ParentsFirst(p, vtx)
    && (forall t :: t in vtx ==> t in p.txs && admissible(t))
  }

  lemma GoodBlockAppend(p: Pool, admissible: Tx -> bool, vtx: seq<Tx>, t: Tx)
    requires GoodBlock(p, admissible, vtx)
    requires t in p.txs && admissible(t) && t !in vtx && p.anc(t) <= SetOf(vtx)
    ensures GoodBlock(p, admissible, vtx + [t])
  {
    forall i | 0 <= i < |vtx + [t]|
      ensures p.anc((vtx + [t])[i]) <= SetOf((vtx + [t])[..i])
    {
      assert (vtx + [t])[..i] == vtx[..i];
    }
    assert vtx[..|vtx|] == vtx;
  }

  lemma GoodBlockClosed(p: Pool, admissible: Tx -> bool, vtx: seq<Tx>)
    requires GoodBlock(p, admissible, vtx)
    ensures AncestorClosed(p, SetOf(vtx))
  {
    forall t | t in vtx
      ensures p.anc(t) <= SetOf(vtx)
    {
      var i :| 0 <= i < |vtx| && vtx[i] == t;
      assert SetOf(vtx[..i]) <= SetOf(vtx);
    }
  }

  lemma SetOfAppend(s: seq<Tx>, t: Tx)
    ensures SetOf(s + [t]) == SetOf(s) + {t}
    ensures t in SetOf(s) <==> t in s
  {
  }

  ghost function Total(s: seq<int>): int {
    if s == [] then 0 else Total(s[..|s| - 1]) + s[|s| - 1]
  }

  function Each<A>(f: Tx -> A, s: seq<Tx>): (r: seq<A>)
    ensures |r| == |s| && forall i :: 0 <= i < |s| ==> r[i] == f(s[i])
  {
    seq(|s|, i requires 0 <= i < |s| => f(s[i]))
  }

  lemma EachAppend<A>(f: Tx -> A, s: seq<Tx>, t: Tx)
    ensures Each(f, s + [t]) == Each(f, s) + [f(t)]
  {
  }

  lemma TotalAppend(s: seq<int>, x: int)
    ensures Total(s + [x]) == Total(s) + x
  {
    assert (s + [x])[..|s|] == s;
  }

  /** What is missing from the block for t, as addPackageTxs collects it, is a package that
      may follow the block. */
  ghost predicate GoodPackage(p: Pool, admissible: Tx -> bool, block: set<Tx>, package: set<Tx>) {
    && package !! block
    && (forall t :: t in package ==> t in p.txs && admissible(t) && p.anc(t) <= block + package)
  }

  lemma OpenIsGood(p: Pool, admissible: Tx -> bool, block: set<Tx>, t: Tx)
    requires PoolOk(p) && t in p.txs
    requires forall u :: u in Open(p, t, block) ==> admissible(u)
    ensures GoodPackage(p, admissible, block, Open(p, t, block))
  {
  }

  /** Members of the block lose their records. */
  lemma EraseAdded(p: Pool, mod: map<Tx, ModEntry>, block: set<Tx>, added: set<Tx>, failed: set<Tx>)
    requires AllRecorded(p, mod, block, block, failed)
    ensures AllRecorded(p, mod - added, block, block + added, failed)
  {
    hide Covers, IsRecord, Open;
    forall t: Tx
      ensures Recorded(p, mod - added, t, block, block + added, failed)
    {
      assert Recorded(p, mod, t, block, block, failed);
    }
  }

  /** An entry that failed loses its record, and from then on its total may be too large. */
  lemma EraseFailed(p: Pool, mod: map<Tx, ModEntry>, block: set<Tx>, t: Tx, failed: set<Tx>)
    requires AllRecorded(p, mod, block, block, failed)
    ensures AllRecorded(p, mod - {t}, block, block, failed + {t})
  {
    hide Covers, IsRecord, Open;
    forall u: Tx
      ensures Recorded(p, mod - {t}, u, block, block, failed + {t})
    {
      assert Recorded(p, mod, u, block, block, failed);
    }
  }

  lemma NothingRecorded(p: Pool, block: set<Tx>)
    ensures AllRecorded(p, map[], {}, block, {})
  {
  }

  /** The entry considered next is not in the block; its totals bound, and unless it failed
      before equal, those of the package it would bring in. */
  lemma EntryTotals(p: Pool, mod: map<Tx, ModEntry>, block: set<Tx>, failed: set<Tx>, t: Tx)
    requires PoolOk(p) && AllRecorded(p, mod, block, block, failed)
    requires t in mod || (t in p.txs && t !in block)
    ensures t in p.txs && t !in block && Open(p, t, block) == (p.anc(t) - block) + {t}
    ensures Covers(p, if t in mod then mod[t] else FromEntry(p, t), Open(p, t, block))
    ensures t !in failed ==> IsRecord(p, if t in mod then mod[t] else FromEntry(p, t), t, block)
    ensures t in mod ==> WithAncestors(p, t) * block != {}
  {
    hide Covers, IsRecord;
    assert Recorded(p, mod, t, block, block, failed);
    FromEntryCovers(p, t, block);
  }

  lemma PackageFacts(p: Pool, admissible: Tx -> bool, block: set<Tx>, t: Tx, vtx: seq<Tx>)
    requires PoolOk(p) && t in p.txs && t !in block && GoodBlock(p, admissible, vtx) && block == SetOf(vtx)
    requires forall u :: u in Open(p, t, block) ==> admissible(u)
    ensures GoodPackage(p, admissible, block, Open(p, t, block))
    ensures AncestorClosed(p, block) && t in Open(p, t, block)
  {
    OpenIsGood(p, admissible, block, t);
    GoodBlockClosed(p, admissible, vtx);
  }

  /** The weight of a package is at most four times its size, so the test by size suffices. */
  lemma PackageFits(p: Pool, block: set<Tx>, package: set<Tx>, entry: ModEntry)
    requires PoolOk(p) && package !! block && package <= p.txs && Covers(p, entry, package)
    ensures Sum(p.weight, block + package) <= Sum(p.weight, block) + 4 * entry.nSizeWithAncestors
    ensures Sum(p.sigops, block + package) <= Sum(p.sigops, block) + entry.nSigOpCostWithAncestors
  {
    SumDisjoint(p.weight, block, package);
    SumDisjoint(p.sigops, block, package);
    SumWeights(p, package);
  }

  // ----- Why a transaction is left out -----

  /** When the block was vtx[..k], the package of t did not fit or was not admissible. */
  ghost predicate RejectedAt(p: Pool, admissible: Tx -> bool, maxWeight: nat, vtx: seq<Tx>, t: Tx, k: nat)
    requires k <= |vtx|
  {
    var block := SetOf(vtx[..k]);
    var package := Open(p, t, block);
    && t !in block
    && (|| COINBASE_WEIGHT + Sum(p.weight, block) + WITNESS_SCALE_FACTOR * Sum(p.size, package) >= maxWeight
        || COINBASE_SIGOPS + Sum(p.sigops, block) + Sum(p.sigops, package) >= MAX_BLOCK_SIGOPS_COST
        || exists u :: u in package && !admissible(u))
  }

  ghost predicate Rejected(p: Pool, admissible: Tx -> bool, maxWeight: nat, vtx: seq<Tx>, t: Tx) {
    exists k :: 0 <= k <= |vtx| && RejectedAt(p, admissible, maxWeight, vtx, t, k)
  }

  lemma RejectedStays(p: Pool, admissible: Tx -> bool, maxWeight: nat, vtx: seq<Tx>, vtx': seq<Tx>, t: Tx)
    requires vtx <= vtx' && Rejected(p, admissible, maxWeight, vtx, t)
    ensures Rejected(p, admissible, maxWeight, vtx', t)
  {
    hide Sum;
    var k :| 0 <= k <= |vtx| && RejectedAt(p, admissible, maxWeight, vtx, t, k);
    assert vtx'[..k] == vtx[..k];
    assert RejectedAt(p, admissible, maxWeight, vtx', t, k);
  }

  ghost predicate AllRejected(p: Pool, admissible: Tx -> bool, maxWeight: nat, vtx: seq<Tx>, rejected: set<Tx>) {
    forall t :: t in rejected ==> Rejected(p, admissible, maxWeight, vtx, t)
  }

  lemma AllRejectedStay(p: Pool, admissible: Tx -> bool, maxWeight: nat, vtx: seq<Tx>, vtx': seq<Tx>, rejected: set<Tx>)
    requires vtx <= vtx' && AllRejected(p, admissible, maxWeight, vtx, rejected)
    ensures AllRejected(p, admissible, maxWeight, vtx', rejected)
  {
    hide Rejected;
    forall t | t in rejected ensures Rejected(p, admissible, maxWeight, vtx', t) {
      RejectedStays(p, admissible, maxWeight, vtx, vtx', t);
    }
  }

  lemma RejectNow(p: Pool, admissible: Tx -> bool, maxWeight: nat, vtx: seq<Tx>, t: Tx)
    requires var block, package := SetOf(vtx), Open(p, t, SetOf(vtx));
             && t !in block
             && (|| COINBASE_WEIGHT + Sum(p.weight, block) + WITNESS_SCALE_FACTOR * Sum(p.size, package) >= maxWeight
                 || COINBASE_SIGOPS + Sum(p.sigops, block) + Sum(p.sigops, package) >= MAX_BLOCK_SIGOPS_COST
                 || exists u :: u in package && !admissible(u))
    ensures Rejected(p, admissible, maxWeight, vtx, t)
  {
    hide Sum;
    assert vtx[..|vtx|] == vtx;
    assert RejectedAt(p, admissible, maxWeight, vtx, t, |vtx|);
  }

  /** By how much sizes count for more than weights, over the ancestors of t in the block. */
  ghost function Spare(p: Pool, t: Tx, block: set<Tx>): int {
    WITNESS_SCALE_FACTOR * Sum(p.size, p.anc(t) * block) - Sum(p.weight, p.anc(t) * block)
  }

  /** The package of t cannot follow the block: it is not admissible, has too many signature
      operations, or would fit by weight only thanks to ancestors that count for more than
      their weight. */
  ghost predicate Unfit(p: Pool, admissible: Tx -> bool, maxWeight: nat, block: set<Tx>, t: Tx) {
    var package := Open(p, t, block);
    || COINBASE_WEIGHT + Sum(p.weight, block) + WITNESS_SCALE_FACTOR * Sum(p.size, package) + Spare(p, t, block)
         >= maxWeight
    || COINBASE_SIGOPS + Sum(p.sigops, block) + Sum(p.sigops, package) >= MAX_BLOCK_SIGOPS_COST
    || exists u :: u in package && !admissible(u)
  }

  /** A block that grows by ancestors of t keeps the sum of both. */
  lemma GrowingSums(f: Tx -> nat, before: set<Tx>, block: set<Tx>, all: set<Tx>)
    requires before <= block
    ensures Sum(f, before) + Sum(f, (all - before) * block) <= Sum(f, block)
    ensures Sum(f, all - before) == Sum(f, all - block) + Sum(f, (all - before) * block)
  {
    hide Sum;
    var later := (all - before) * block;
    SumDisjoint(f, before, later);
    SumSubset(f, before + later, block);
    assert all - before == (all - block) + later;
    SumDisjoint(f, all - block, later);
  }

  lemma SpareGrows(p: Pool, t: Tx, block: set<Tx>, later: set<Tx>)
    requires PoolOk(p) && block <= p.txs && later <= p.anc(t) * block
    ensures WITNESS_SCALE_FACTOR * Sum(p.size, later) - Sum(p.weight, later) <= Spare(p, t, block)
  {
    hide Sum;
    var all := p.anc(t) * block;
    assert all == later + (all - later);
    SumDisjoint(p.size, later, all - later);
    SumDisjoint(p.weight, later, all - later);
    SumWeights(p, all - later);
  }

  /** Without spare size among its included ancestors, what was rejected once does not fit the
      block that is there in the end. */
  lemma RejectedForGood(p: Pool, admissible: Tx -> bool, maxWeight: nat, vtx: seq<Tx>, t: Tx)
    requires PoolOk(p) && GoodBlock(p, admissible, vtx) && t in p.txs && t !in vtx
    requires Rejected(p, admissible, maxWeight, vtx, t)
    ensures Unfit(p, admissible, maxWeight, SetOf(vtx), t)
  {
    hide Sum, PoolOk;
    var k :| 0 <= k <= |vtx| && RejectedAt(p, admissible, maxWeight, vtx, t, k);
    var before, block, all := SetOf(vtx[..k]), SetOf(vtx), WithAncestors(p, t);
    var later := (all - before) * block;
    GrowingSums(p.weight, before, block, all);
    GrowingSums(p.size, before, block, all);
    GrowingSums(p.sigops, before, block, all);
    SpareGrows(p, t, block, later);
  }

  /** Spare size is what makes the difference: the child of the family was rejected after its
      first parent, and fits the final block. */
  lemma RejectedButFits()
    ensures PoolOk(Family()) && GoodBlock(Family(), _ => true, [0, 1])
    ensures Rejected(Family(), _ => true, FAMILY_LIMIT, [0, 1], 2)
    ensures FamilyFits({0, 1}, Sum(Family().size, Open(Family(), 2, {0, 1}))) && SetOf([0, 1]) == {0, 1}
  {
    hide Sum, PoolOk;
    var p := Family();
    FamilyOk();
    assert [0, 1][..1] == [0] && SetOf([0]) == {0} && SetOf([0, 1]) == {0, 1};
    assert Open(p, 2, {0}) == {1} + {2} && Open(p, 2, {0, 1}) == {2} && {0, 1} == {0} + {1};
    SumOfOne(p.size, 1);
    SumAdd(p.size, {1}, 2);
    SumOfOne(p.size, 2);
    SumOfOne(p.weight, 0);
    SumAdd(p.weight, {0}, 1);
    assert RejectedAt(p, _ => true, FAMILY_LIMIT, [0, 1], 2, 1);
  }
}
