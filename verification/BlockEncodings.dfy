/** Compact blocks (src/blockencodings.cpp, src/blockencodings.h): a block is rebuilt from
    short ids, prefilled transactions, and what the receiver already has. */
module BlockEncodings {
  import opened Wrappers

  /** Transactions are told apart by their witness hash. */
  type Tx = nat

  datatype ReadStatus = StatusOk | StatusInvalid | StatusFailed | StatusCheckBlockFailed

  /** A prefilled transaction; its index counts from the one before. A null transaction is None. */
  datatype Prefilled = Prefilled(index: nat, tx: Option<Tx>)

  /** A compact block message. */
  datatype Message = Message(headerNull: bool, shortids: seq<nat>, prefilled: seq<Prefilled>)

  const MAX_INDEX := 0xffff

  /** How many positions a 16-bit index tells apart. */
  const POSITIONS := 0x1_0000

  // ----- Slots -----

  /** The number of empty positions below p. */
  ghost function CountFree(a: seq<Option<Tx>>, p: nat): (n: nat)
    requires p <= |a|
    ensures n <= p
  {
    if p == 0 then 0 else CountFree(a, p - 1) + if a[p - 1].None? then 1 else 0
  }

  lemma {:induction false} CountFreeMono(a: seq<Option<Tx>>, p: nat, q: nat)
    requires p <= q <= |a|
    ensures CountFree(a, p) <= CountFree(a, q)
    decreases q
  {
    if p < q {
      CountFreeMono(a, p, q - 1);
    }
  }

  lemma {:induction false} CountFreeSet(a: seq<Option<Tx>>, k: nat, v: Option<Tx>, p: nat)
    requires k < |a| && p <= |a|
    ensures CountFree(a[k := v], p) == CountFree(a, p) +
              if p <= k then 0 else (if v.None? then 1 else 0) - (if a[k].None? then 1 else 0)
  {
    if p > 0 {
      CountFreeSet(a, k, v, p - 1);
    }
  }

  lemma {:induction false} CountFreeAll(a: seq<Option<Tx>>, p: nat)
    requires p <= |a| && forall i :: 0 <= i < p ==> a[i].None?
    ensures CountFree(a, p) == p
  {
    if p > 0 {
      CountFreeAll(a, p - 1);
    }
  }

  /** Position p is the i-th empty one. */
  ghost predicate IsSlot(a: seq<Option<Tx>>, i: nat, p: nat) {
    p < |a| && a[p].None? && CountFree(a, p) == i
  }

  lemma SlotsIncrease(a: seq<Option<Tx>>, i: nat, p: nat, j: nat, q: nat)
    requires IsSlot(a, i, p) && IsSlot(a, j, q)
    ensures i < j <==> p < q
    ensures i == j <==> p == q
  {
    if p < q {
      CountFreeMono(a, p + 1, q);
    } else if q < p {
      CountFreeMono(a, q + 1, p);
    }
  }

  // ----- Prefilled transactions -----

  /** The position in the block of the i-th prefilled transaction. */
  ghost function PositionOf(ps: seq<Prefilled>, i: nat): (p: nat)
    requires i < |ps|
    ensures p >= i
  {
    if i == 0 then ps[0].index else PositionOf(ps, i - 1) + ps[i].index + 1
  }

  ghost function LastPosition(ps: seq<Prefilled>, n: nat): int
    requires n <= |ps|
  {
    if n == 0 then -1 else PositionOf(ps, n - 1)
  }

  lemma {:induction false} PositionsIncrease(ps: seq<Prefilled>, i: nat, j: nat)
    requires i < j < |ps|
    ensures PositionOf(ps, i) < PositionOf(ps, j)
    decreases j
  {
    if i < j - 1 {
      PositionsIncrease(ps, i, j - 1);
    }
  }

  ghost predicate PlacedAt(m: Message, a: seq<Option<Tx>>, i: nat)
    requires i < |m.prefilled|
  {
    PositionOf(m.prefilled, i) < |a| && m.prefilled[i].tx.Some? && a[PositionOf(m.prefilled, i)] == m.prefilled[i].tx
  }

  /** The first n prefilled transactions are in place and nothing else is. */
  ghost predicate Placed(m: Message, n: nat, a: seq<Option<Tx>>)
    requires n <= |m.prefilled|
  {
    && |a| == |m.shortids| + |m.prefilled|
    && (forall i :: 0 <= i < n ==> PlacedAt(m, a, i))
    && (forall p :: LastPosition(m.prefilled, n) < p < |a| ==> a[p].None?)
    && CountFree(a, |a|) == |a| - n
  }

  lemma PlacedStart(m: Message, a: seq<Option<Tx>>)
    requires |a| == |m.shortids| + |m.prefilled| && forall i :: 0 <= i < |a| ==> a[i].None?
    ensures Placed(m, 0, a)
  {
    CountFreeAll(a, |a|);
  }

  lemma PlacedNext(m: Message, n: nat, a: seq<Option<Tx>>)
    requires n < |m.prefilled| && Placed(m, n, a) && m.prefilled[n].tx.Some?
    requires PositionOf(m.prefilled, n) < |a|
    ensures Placed(m, n + 1, a[PositionOf(m.prefilled, n) := m.prefilled[n].tx])
  {
    hide CountFree, PositionOf;
    var p := PositionOf(m.prefilled, n);
    var a' := a[p := m.prefilled[n].tx];
    if n > 0 {
      PositionsIncrease(m.prefilled, n - 1, n);
    }
    CountFreeSet(a, p, m.prefilled[n].tx, |a|);
    forall i | 0 <= i < n + 1
      ensures PlacedAt(m, a', i)
    {
      if i < n {
        assert PlacedAt(m, a, i);
        PositionsIncrease(m.prefilled, i, n);
      }
    }
  }

  // ----- Binding short ids -----

  /** The first n short ids are bound to the first n empty positions, in order. */
  ghost predicate Bound(m: Message, a: seq<Option<Tx>>, n: nat, slots: seq<nat>, ids: map<nat, nat>)
    requires n <= |m.shortids|
  {
    && |slots| == n && |ids| <= n
    && (forall i :: 0 <= i < n ==> IsSlot(a, i, slots[i]) && m.shortids[i] in ids)
    && (forall s :: s in ids ==> s in m.shortids[..n])
    && (|ids| == n ==> forall i :: 0 <= i < n ==> ids[m.shortids[i]] == slots[i])
  }

  lemma KeysGrow(ids: map<nat, nat>, s: nat, p: nat)
    ensures |ids[s := p]| == |ids| + if s in ids then 0 else 1
  {
    assert ids[s := p].Keys == ids.Keys + {s};
  }

  lemma BoundNext(m: Message, a: seq<Option<Tx>>, n: nat, slots: seq<nat>, ids: map<nat, nat>, p: nat)
    requires n < |m.shortids| && Bound(m, a, n, slots, ids) && IsSlot(a, n, p)
    ensures Bound(m, a, n + 1, slots + [p], ids[m.shortids[n] := p])
  {
    hide IsSlot;
    var s, slots', ids' := m.shortids[n], slots + [p], ids[m.shortids[n] := p];
    assert slots'[n] == p;
    KeysGrow(ids, s, p);
    assert m.shortids[..n + 1] == m.shortids[..n] + [s];
  }

  /** Every position of the block fits 16 bits. */
  ghost predicate Fits(m: Message) {
    |m.shortids| + |m.prefilled| <= 0x1_0000
  }

  /** Positions as they are kept, in 16 bits. */
  ghost function Narrow(wide: map<nat, nat>): map<nat, nat> {
    map s | s in wide :: wide[s] % POSITIONS
  }

  lemma NarrowNext(wide: map<nat, nat>, s: nat, p: nat)
    ensures Narrow(wide[s := p]) == Narrow(wide)[s := p % POSITIONS]
  {
  }

  lemma NarrowSize(wide: map<nat, nat>)
    ensures |Narrow(wide)| == |wide|
  {
    assert Narrow(wide).Keys == wide.Keys;
  }

  /** As many ids as short ids: they are distinct. */
  lemma BoundDistinct(m: Message, a: seq<Option<Tx>>, slots: seq<nat>, ids: map<nat, nat>, i: nat, j: nat)
    requires Bound(m, a, |m.shortids|, slots, ids) && |ids| == |m.shortids| && i < j < |m.shortids|
    ensures m.shortids[i] != m.shortids[j]
  {
    SlotsIncrease(a, i, slots[i], j, slots[j]);
  }

  // ----- Filling slots -----

  /** Every slot is empty or holds a known transaction with the slot's short id; the other
      positions are as the message fixed them. */
  ghost predicate Filled(m: Message, sid: Tx -> nat, a: seq<Option<Tx>>, slots: seq<nat>, known: set<Tx>,
                         txn: seq<Option<Tx>>)
    requires |slots| == |m.shortids|
  {
    && |txn| == |a|
    && (forall p :: 0 <= p < |a| && a[p].Some? ==> txn[p] == a[p])
    && (forall i :: 0 <= i < |slots| ==> slots[i] < |a| && SlotOk(m.shortids[i], sid, known, txn[slots[i]]))
  }

  ghost predicate SlotOk(id: nat, sid: Tx -> nat, known: set<Tx>, v: Option<Tx>) {
    v.Some? ==> sid(v.value) == id && v.value in known
  }

  lemma FillSlot(m: Message, sid: Tx -> nat, a: seq<Option<Tx>>, slots: seq<nat>, known: set<Tx>,
                 txn: seq<Option<Tx>>, i: nat, v: Option<Tx>)
    requires |slots| == |m.shortids| && Filled(m, sid, a, slots, known, txn) && i < |slots|
    requires forall k :: 0 <= k < |slots| ==> IsSlot(a, k, slots[k])
    requires SlotOk(m.shortids[i], sid, known, v)
    ensures Filled(m, sid, a, slots, known, txn[slots[i] := v])
    ensures CountFree(txn[slots[i] := v], |txn|) ==
              CountFree(txn, |txn|) + (if v.None? then 1 else 0) - (if txn[slots[i]].None? then 1 else 0)
  {
    hide CountFree, SlotOk;
    var txn' := txn[slots[i] := v];
    CountFreeSet(txn, slots[i], v, |txn|);
    forall k | 0 <= k < |slots|
      ensures SlotOk(m.shortids[k], sid, known, txn'[slots[k]])
    {
      SlotsIncrease(a, i, slots[i], k, slots[k]);
    }
  }

  /** What a short id that is bound stands for. */
  lemma BoundSlot(m: Message, a: seq<Option<Tx>>, slots: seq<nat>, ids: map<nat, nat>, s: nat) returns (i: nat)
    requires Bound(m, a, |m.shortids|, slots, ids) && |ids| == |m.shortids| && s in ids
    ensures i < |m.shortids| && m.shortids[i] == s && ids[s] == slots[i] < |a|
  {
    assert m.shortids[..|m.shortids|] == m.shortids;
    i :| 0 <= i < |m.shortids| && m.shortids[i] == s;
    assert IsSlot(a, i, slots[i]);
  }

  /** The state of either scan: a slot not marked has not been filled. */
  ghost predicate Scanning(m: Message, sid: Tx -> nat, a: seq<Option<Tx>>, slots: seq<nat>, known: set<Tx>,
                           txn: seq<Option<Tx>>, have: seq<bool>, count: int) {
    && |slots| == |m.shortids| && |have| == |a|
    && Filled(m, sid, a, slots, known, txn)
    && (forall i :: 0 <= i < |slots| && !have[slots[i]] ==> txn[slots[i]].None?)
    && CountFree(txn, |txn|) == |m.shortids| - count
  }

  lemma ScanningStep(m: Message, sid: Tx -> nat, a: seq<Option<Tx>>, slots: seq<nat>, ids: map<nat, nat>,
                     known: set<Tx>, txn: seq<Option<Tx>>, have: seq<bool>, count: int, t: Tx)
    requires Bound(m, a, |m.shortids|, slots, ids) && |ids| == |m.shortids| && t in known && sid(t) in ids
    requires Scanning(m, sid, a, slots, known, txn, have, count)
    ensures var p := ids[sid(t)];
            && p < |txn| == |have|
            && (!have[p] ==> Scanning(m, sid, a, slots, known, txn[p := Some(t)], have[p := true], count + 1))
            && (have[p] && txn[p].Some? ==> Scanning(m, sid, a, slots, known, txn[p := None], have, count - 1))
  {
    hide CountFree, Filled, SlotOk;
    assert forall k :: 0 <= k < |slots| ==> IsSlot(a, k, slots[k]);
    var i := BoundSlot(m, a, slots, ids, sid(t));
    SlotsFit(m, sid, a, slots, known, txn);
    SlotValues(sid(t), sid, known, t);
    FillSlot(m, sid, a, slots, known, txn, i, Some(t));
    FillSlot(m, sid, a, slots, known, txn, i, None);
  }

  lemma SlotsFit(m: Message, sid: Tx -> nat, a: seq<Option<Tx>>, slots: seq<nat>, known: set<Tx>, txn: seq<Option<Tx>>)
    requires |slots| == |m.shortids| && Filled(m, sid, a, slots, known, txn)
    ensures |txn| == |a| && forall i :: 0 <= i < |slots| ==> slots[i] < |a|
  {
  }

  lemma SlotValues(id: nat, sid: Tx -> nat, known: set<Tx>, t: Tx)
    requires t in known && sid(t) == id
    ensures SlotOk(id, sid, known, Some(t)) && SlotOk(id, sid, known, None)
  {
  }

  // ----- The receiver -----

  /** No prefilled transaction is null or beyond what short ids and earlier ones account for. */
  ghost predicate PrefillOk(m: Message, n: nat)
    requires n <= |m.prefilled|
  {
    forall i :: 0 <= i < n ==> m.prefilled[i].tx.Some? && PositionOf(m.prefilled, i) <= 0xffff
                               && PositionOf(m.prefilled, i) <= |m.shortids| + i
  }

  /** Every position a 16-bit offset reaches is prefilled, and there is a short id to bind. */
  ghost predicate NoneLeft(m: Message) {
    |m.prefilled| == 0x1_0000 && m.shortids != []
  }

  /** Prefilled positions are distinct and fit 16 bits. */
  lemma PrefilledFew(m: Message)
    requires PrefillOk(m, |m.prefilled|)
    ensures |m.prefilled| <= POSITIONS
  {
    if m.prefilled != [] {
      var n := |m.prefilled| - 1;
      assert n <= PositionOf(m.prefilled, n) <= MAX_INDEX;
    }
  }

  lemma {:induction false} PositionsSpread(ps: seq<Prefilled>, i: nat, j: nat)
    requires i <= j < |ps|
    ensures PositionOf(ps, i) + (j - i) <= PositionOf(ps, j)
    decreases j
  {
    if i < j {
      PositionsSpread(ps, i, j - 1);
    }
  }

  /** With as many prefilled transactions as 16 bits tell apart, none of these positions is free. */
  lemma AllTaken(m: Message, a: seq<Option<Tx>>, p: nat)
    requires Placed(m, |m.prefilled|, a) && PrefillOk(m, |m.prefilled|) && |m.prefilled| == 0x1_0000 && p < 0x1_0000
    ensures p < |a| && a[p].Some?
  {
    hide CountFree, PositionOf;
    PositionsSpread(m.prefilled, 0, p);
    PositionsSpread(m.prefilled, p, POSITIONS - 1);
    assert PlacedAt(m, a, p);
  }

  lemma {:induction false} SomeFree(a: seq<Option<Tx>>, q: nat) returns (p: nat)
    requires q <= |a| && CountFree(a, q) > 0
    ensures p < q && a[p].None?
  {
    if a[q - 1].None? {
      p := q - 1;
    } else {
      p := SomeFree(a, q - 1);
    }
  }

  /** The offset of the search for the first free position after n steps, in 16 bits. */
  function OffsetAfter(n: nat): nat { n % POSITIONS }

  /** The search ends exactly if fewer than 65536 transactions are prefilled; otherwise it
      comes back to where it began and goes on. */
  lemma SearchEndsExactly(m: Message, a: seq<Option<Tx>>)
    requires Placed(m, |m.prefilled|, a) && PrefillOk(m, |m.prefilled|) && m.shortids != []
    ensures (exists n: nat :: OffsetAfter(n) < |a| && a[OffsetAfter(n)].None?) <==> !NoneLeft(m)
  {
    hide Placed, PrefillOk, CountFree;
    PrefilledFew(m);
    PlacedSize(m, |m.prefilled|, a);
    if NoneLeft(m) {
      forall n: nat ensures OffsetAfter(n) < |a| && a[OffsetAfter(n)].Some? {
        AllTaken(m, a, OffsetAfter(n));
      }
    } else {
      var q := if |a| < POSITIONS then |a| else POSITIONS;
      TakenBelow(a, q, |a|);
      var p := SomeFree(a, q);
      assert OffsetAfter(p) == p;
    }
  }

  /** A message on which it does not end, though all tests before it pass. */
  function Crowd(t: Tx): Message {
    Message(false, [0], seq(POSITIONS, _ => Prefilled(0, Some(t))))
  }

  lemma {:induction false} CrowdPositions(t: Tx, i: nat)
    requires i < POSITIONS
    ensures PositionOf(Crowd(t).prefilled, i) == i
  {
    if i > 0 {
      CrowdPositions(t, i - 1);
    }
  }

  lemma SearchCanGoOn(t: Tx, maxTxs: nat)
    requires maxTxs > 0x1_0000
    ensures WellFormed(Crowd(t), maxTxs) && NoneLeft(Crowd(t))
  {
    hide PositionOf;
    var m := Crowd(t);
    forall i | 0 <= i < |m.prefilled|
      ensures m.prefilled[i].tx.Some? && PositionOf(m.prefilled, i) <= MAX_INDEX
              && PositionOf(m.prefilled, i) <= |m.shortids| + i
    {
      CrowdPositions(t, i);
    }
  }

  ghost predicate WellFormed(m: Message, maxTxs: nat) {
    && !m.headerNull && 0 < |m.shortids| + |m.prefilled| <= maxTxs
    && PrefillOk(m, |m.prefilled|)
  }

  /** No transaction is prefilled beyond the positions a 16-bit index reaches. */
  lemma EmptyBeyond(m: Message, a: seq<Option<Tx>>)
    requires Placed(m, |m.prefilled|, a) && PrefillOk(m, |m.prefilled|)
    ensures forall p :: 0x1_0000 <= p < |a| ==> a[p].None?
  {
    hide CountFree;
  }

  lemma NarrowRange(m: Message, a: seq<Option<Tx>>, slots: seq<nat>, wide: map<nat, nat>)
    requires Bound(m, a, |m.shortids|, slots, wide) && |wide| == |m.shortids|
    ensures Fits(m) && |a| == |m.shortids| + |m.prefilled| ==> Narrow(wide) == wide
    ensures forall s :: s in Narrow(wide) ==> Narrow(wide)[s] < POSITIONS && Narrow(wide)[s] < |a|
  {
    hide IsSlot;
    forall s | s in wide ensures wide[s] < |a| {
      var i := BoundSlot(m, a, slots, wide, s);
    }
  }

  /** Every short id is bound to its own empty position exactly if the positions of the block
      fit 16 bits. The code compares their number with a bound from the block weight only. */
  lemma BoundExactly(m: Message, a: seq<Option<Tx>>, slots: seq<nat>, wide: map<nat, nat>)
    requires Placed(m, |m.prefilled|, a) && PrefillOk(m, |m.prefilled|)
    requires Bound(m, a, |m.shortids|, slots, wide) && |wide| == |m.shortids|
    ensures (forall i :: 0 <= i < |m.shortids| ==>
              m.shortids[i] in Narrow(wide) && Narrow(wide)[m.shortids[i]] == slots[i]) <==> Fits(m)
  {
    hide CountFree, Placed, PrefillOk, PositionOf;
    PlacedSize(m, |m.prefilled|, a);
    NarrowRange(m, a, slots, wide);
    if !Fits(m) {
      var n, p := |m.shortids| - 1, |a| - 1;
      EmptyBeyond(m, a);
      CountNext(a, p);
      SlotsIncrease(a, n, slots[n], n, p);
    }
  }

  /** A message of short ids only: 0, 1, 2 and so on. */
  ghost function Plain(k: nat): Message {
    Message(false, seq(k, i => i), [])
  }

  ghost function PlainIds(n: nat): (r: map<nat, nat>)
    ensures forall s :: s in r <==> 0 <= s < n
    ensures |r| == n && forall s :: s in r ==> r[s] == s
  {
    if n == 0 then map[]
    else
      var r := PlainIds(n - 1)[n - 1 := n - 1];
      assert r.Keys == PlainIds(n - 1).Keys + {n - 1};
      r
  }

  lemma {:induction false} PlainBound(k: nat, a: seq<Option<Tx>>, n: nat)
    requires n <= k == |a| && forall p :: 0 <= p < k ==> a[p].None?
    ensures Bound(Plain(k), a, n, seq(n, i => i), PlainIds(n))
  {
    hide Bound, CountFree;
    if n == 0 {
      BoundStart(Plain(k), a);
      assert seq(n, i => i) == [];
    } else {
      var slots := seq(n - 1, i => i);
      PlainBound(k, a, n - 1);
      CountFreeAll(a, n - 1);
      BoundNext(Plain(k), a, n - 1, slots, PlainIds(n - 1), n - 1);
      assert seq(n, i => i) == slots + [n - 1];
    }
  }

  /** With 65537 short ids the last one is bound to the first position. */
  lemma PositionWraps()
    ensures var m, a: seq<Option<Tx>> := Plain(POSITIONS + 1), seq(POSITIONS + 1, _ => None);
            var slots, wide := seq(POSITIONS + 1, i => i), PlainIds(POSITIONS + 1);
            && Placed(m, 0, a) && PrefillOk(m, 0) && Bound(m, a, POSITIONS + 1, slots, wide)
            && slots[POSITIONS] == POSITIONS && Narrow(wide)[m.shortids[POSITIONS]] == 0
  {
    hide Placed, Bound, CountFree;
    var a: seq<Option<Tx>> := seq(POSITIONS + 1, _ => None);
    PlacedStart(Plain(POSITIONS + 1), a);
    PlainBound(POSITIONS + 1, a, POSITIONS + 1);
    assert POSITIONS in PlainIds(POSITIONS + 1);
  }

  ghost predicate Distinct(s: seq<nat>) {
    forall i, j :: 0 <= i < j < |s| ==> s[i] != s[j]
  }

  /** Positions to which no short id is bound are as before. */
  ghost predicate OthersKept(ids: map<nat, nat>, was: seq<Option<Tx>>, txn: seq<Option<Tx>>) {
    |was| == |txn| && forall p :: 0 <= p < |txn| && p !in ids.Values ==> txn[p] == was[p]
  }

  lemma NothingSet(ids: map<nat, nat>, txn: seq<Option<Tx>>)
    ensures OthersKept(ids, txn, txn)
  {
  }

  lemma OthersStillKept(ids: map<nat, nat>, first: seq<Option<Tx>>, was: seq<Option<Tx>>, txn: seq<Option<Tx>>)
    requires OthersKept(ids, first, was) && OthersKept(ids, was, txn)
    ensures OthersKept(ids, first, txn)
  {
  }

  lemma SetKeepsOthers(ids: map<nat, nat>, s: nat, was: seq<Option<Tx>>, txn: seq<Option<Tx>>, v: Option<Tx>)
    requires OthersKept(ids, was, txn) && s in ids && ids[s] < |txn|
    ensures OthersKept(ids, was, txn[ids[s] := v])
  {
    assert ids[s] in ids.Values;
  }

  /** What is promised when the message was accepted: a is the block with its prefilled
      transactions, slots the positions of the short ids. */
  ghost predicate Initialized(m: Message, sid: Tx -> nat, known: set<Tx>, a: seq<Option<Tx>>, slots: seq<nat>,
                              txn: seq<Option<Tx>>) {
    && Placed(m, |m.prefilled|, a) && Distinct(m.shortids) && |slots| == |m.shortids|
    && (forall i :: 0 <= i < |slots| ==> IsSlot(a, i, slots[i]))
    && Filled(m, sid, a, slots, known, txn)
  }

  /** What CheckBlock says. */
  datatype BlockCheck = BlockGood | BlockCorrupt | BlockBad

  /** Available transactions stay, the missing ones go into the gaps in order. */
  ghost predicate IsFilledIn(txn: seq<Option<Tx>>, missing: seq<Tx>, vtx: seq<Tx>) {
    && |vtx| == |txn| && |missing| == CountFree(txn, |txn|)
    && (forall p :: 0 <= p < |txn| && txn[p].Some? ==> vtx[p] == txn[p].value)
    && (forall p :: 0 <= p < |txn| && txn[p].None? ==>
         CountFree(txn, p) < |missing| && vtx[p] == missing[CountFree(txn, p)])
  }

  class PartiallyDownloadedBlock {
    const pool: seq<Tx>
    var headerNull: bool
    var txnAvailable: seq<Option<Tx>>
    var prefilledCount: nat
    var mempoolCount: int

    constructor (pool: seq<Tx>)
      ensures this.pool == pool && headerNull && txnAvailable == [] && mempoolCount == 0
    {
      this.pool, headerNull, txnAvailable, prefilledCount, mempoolCount := pool, true, [], 0, 0;
    }

    method PlacePrefilled(m: Message) returns (ok: bool)
      requires Placed(m, 0, txnAvailable)
      modifies this`txnAvailable
      ensures ok <==> PrefillOk(m, |m.prefilled|)
      ensures ok ==> Placed(m, |m.prefilled|, txnAvailable)
    {
      hide Placed;
      var lastprefilledindex := -1;
      var i := 0;
      while i < |m.prefilled|
        invariant 0 <= i <= |m.prefilled| && PrefillOk(m, i)
        invariant lastprefilledindex == LastPosition(m.prefilled, i)
        invariant Placed(m, i, txnAvailable)
      {
        if m.prefilled[i].tx.None? {
          return false;
        }
        lastprefilledindex := lastprefilledindex + m.prefilled[i].index + 1;
        assert lastprefilledindex == PositionOf(m.prefilled, i);
        if lastprefilledindex > MAX_INDEX {
          return false;
        }
        if lastprefilledindex > |m.shortids| + i {
          return false;
        }
        PlacedSize(m, i, txnAvailable);
        PlacedNext(m, i, txnAvailable);
        txnAvailable := txnAvailable[lastprefilledindex := m.prefilled[i].tx];
        i := i + 1;
      }
      return true;
    }

    /** The inner loop of the binding: past the positions that are taken. */
    method NextFree(m: Message, i: nat, offset0: nat) returns (offset: nat)
      requires Placed(m, |m.prefilled|, txnAvailable) && |m.prefilled| < POSITIONS
      requires i < |m.shortids| && i + offset0 <= |txnAvailable| && CountFree(txnAvailable, i + offset0) == i
      ensures i + offset < |txnAvailable| && txnAvailable[i + offset].None?
      ensures CountFree(txnAvailable, i + offset) == i
    {
      hide CountFree, Placed;
      PlacedSize(m, |m.prefilled|, txnAvailable);
      offset := offset0;
      while txnAvailable[i + offset].Some?
        invariant 0 <= offset && i + offset < |txnAvailable| && CountFree(txnAvailable, i + offset) == i
        decreases |txnAvailable| - offset
      {
        CountNext(txnAvailable, i + offset);
        TakenBelow(txnAvailable, i + offset + 1, |txnAvailable|);
        assert offset + 1 < POSITIONS;
        offset := (offset + 1) % POSITIONS;
      }
    }

    /** One short id is bound to the next free position. */
    method BindOne(m: Message, i: nat, offset0: nat, ids0: map<nat, nat>, ghost slots0: seq<nat>,
                   ghost wide0: map<nat, nat>)
      returns (offset: nat, ids: map<nat, nat>, ghost slots: seq<nat>, ghost wide: map<nat, nat>)
      requires Placed(m, |m.prefilled|, txnAvailable) && |m.prefilled| < POSITIONS
      requires i < |m.shortids| && i + offset0 <= |txnAvailable| && CountFree(txnAvailable, i + offset0) == i
      requires Bound(m, txnAvailable, i, slots0, wide0) && ids0 == Narrow(wide0)
      ensures i + offset < |txnAvailable| && CountFree(txnAvailable, i + 1 + offset) == i + 1
      ensures Bound(m, txnAvailable, i + 1, slots, wide) && ids == Narrow(wide)
    {
      hide Bound, CountFree, Placed, Narrow;
      offset := NextFree(m, i, offset0);
      CountNext(txnAvailable, i + offset);
      BoundNext(m, txnAvailable, i, slots0, wide0, i + offset);
      NarrowNext(wide0, m.shortids[i], i + offset);
      ids := ids0[m.shortids[i] := (i + offset) % POSITIONS];
      slots, wide := slots0 + [i + offset], wide0[m.shortids[i] := i + offset];
    }

    /** Binds the i-th short id to the i-th empty position, of which 16 bits are kept. The
        offset is kept in 16 bits too; see SearchEndsExactly. */
    method BindIds(m: Message, crowded: nat -> bool)
      returns (ok: bool, ids: map<nat, nat>, ghost slots: seq<nat>, ghost wide: map<nat, nat>)
      requires Placed(m, |m.prefilled|, txnAvailable) && PrefillOk(m, |m.prefilled|)
      requires !NoneLeft(m)
      ensures ok <==> Distinct(m.shortids) && forall i :: 0 <= i < |m.shortids| ==> !crowded(i)
      ensures ok ==> |wide| == |m.shortids| && Bound(m, txnAvailable, |m.shortids|, slots, wide) && ids == Narrow(wide)
    {
      hide Bound, CountFree, Placed, PrefillOk, Narrow, Distinct;
      PlacedSize(m, |m.prefilled|, txnAvailable);
      PrefilledFew(m);
      ids, slots, wide := map[], [], map[];
      NarrowSize(wide);
      var offset := 0;
      CountNone(txnAvailable);
      BoundStart(m, txnAvailable);
      var i := 0;
      while i < |m.shortids|
        invariant 0 <= i <= |m.shortids| && 0 <= offset && i + offset <= |txnAvailable|
        invariant CountFree(txnAvailable, i + offset) == i
        invariant Bound(m, txnAvailable, i, slots, wide) && ids == Narrow(wide)
        invariant forall k :: 0 <= k < i ==> !crowded(k)
      {
        offset, ids, slots, wide := BindOne(m, i, offset, ids, slots, wide);
        if crowded(i) {
          return false, ids, slots, wide;
        }
        i := i + 1;
      }
      BoundSize(m, txnAvailable, slots, wide);
      ok := |ids| == |m.shortids|;
      NarrowSize(wide);
    }

    /** Fills the slot of one transaction if its short id is asked for; a second one with that
        short id empties it again. */
    method MatchOne(m: Message, sid: Tx -> nat, t: Tx, ids: map<nat, nat>, have0: seq<bool>, sameIsFine: bool,
                    ghost a: seq<Option<Tx>>, ghost slots: seq<nat>, ghost met: set<Tx>, ghost base: int,
                    ghost clear: bool)
      returns (have: seq<bool>)
      requires |have0| == |txnAvailable| && forall s :: s in ids ==> ids[s] < |txnAvailable|
      requires Fits(m) ==> Bound(m, a, |m.shortids|, slots, ids) && |ids| == |m.shortids|
      requires Fits(m) ==> Scanning(m, sid, a, slots, met, txnAvailable, have0, mempoolCount - base)
      requires clear ==> Fits(m) && base == 0 && Steady(m, sid, slots, met, txnAvailable, have0)
      requires clear ==> forall u :: u in met && sid(u) == sid(t) && sid(u) in m.shortids ==> u == t && sameIsFine
      modifies this`txnAvailable, this`mempoolCount
      ensures |have| == |txnAvailable| == old(|txnAvailable|)
      ensures OthersKept(ids, old(txnAvailable), txnAvailable)
      ensures Fits(m) ==> Scanning(m, sid, a, slots, met + {t}, txnAvailable, have, mempoolCount - base)
      ensures clear ==> Steady(m, sid, slots, met + {t}, txnAvailable, have)
    {
      hide Bound, Scanning, Steady, Fits, OthersKept;
      have := have0;
      NothingSet(ids, txnAvailable);
      if Fits(m) {
        ScanningMore(m, sid, a, slots, met, met + {t}, txnAvailable, have, mempoolCount - base);
      }
      if clear {
        SteadyNext(m, sid, a, slots, ids, met, txnAvailable, have, mempoolCount, t, sameIsFine);
      }
      var shortid := sid(t);
      if shortid in ids {
        if Fits(m) {
          ScanningStep(m, sid, a, slots, ids, met + {t}, txnAvailable, have, mempoolCount - base, t);
        }
        var p := ids[shortid];
        SetKeepsOthers(ids, shortid, txnAvailable, txnAvailable, Some(t));
        SetKeepsOthers(ids, shortid, txnAvailable, txnAvailable, None);
        if !have[p] {
          txnAvailable := txnAvailable[p := Some(t)];
          have := have[p := true];
          mempoolCount := mempoolCount + 1;
        } else if txnAvailable[p].Some? && !(sameIsFine && txnAvailable[p].value == t) {
          txnAvailable := txnAvailable[p := None];
          mempoolCount := mempoolCount - 1;
        }
      }
    }

    /** Looks for each short id among the transactions of one source, after those in `seen`.
        sameIsFine tells the extra transactions, where meeting the same transaction again is
        no conflict. Unless two transactions share a short id, every transaction that is
        asked for and known gets its slot. Where positions do not fit 16 bits, only that
        positions not bound are left alone. */
    method ScanSource(m: Message, sid: Tx -> nat, source: seq<Tx>, ids: map<nat, nat>, have0: seq<bool>,
                      sameIsFine: bool, ghost a: seq<Option<Tx>>, ghost slots: seq<nat>, ghost seen: set<Tx>,
                      ghost base: int)
      returns (have: seq<bool>)
      requires |have0| == |txnAvailable| && forall s :: s in ids ==> ids[s] < |txnAvailable|
      requires Fits(m) ==> Bound(m, a, |m.shortids|, slots, ids) && |ids| == |m.shortids|
      requires Fits(m) ==> Scanning(m, sid, a, slots, seen, txnAvailable, have0, mempoolCount - base)
      modifies this`txnAvailable, this`mempoolCount
      ensures |have| == |txnAvailable| == old(|txnAvailable|)
      ensures OthersKept(ids, old(txnAvailable), txnAvailable)
      ensures Fits(m) ==>
                Scanning(m, sid, a, slots, seen + Elements(source), txnAvailable, have, mempoolCount - base)
      ensures Fits(m) && base == 0 && old(Steady(m, sid, slots, seen, txnAvailable, have0)) &&
              Clear(m, sid, seen, source, sameIsFine) ==>
                Steady(m, sid, slots, seen + Elements(source), txnAvailable, have)
    {
      hide Bound, Scanning, Steady, Clear, Fits, OthersKept, Elements, Met;
      have := have0;
      NothingSet(ids, txnAvailable);
      MetBounds(seen, source, 0);
      ghost var clear := Fits(m) && base == 0 && Steady(m, sid, slots, seen, txnAvailable, have) &&
                         Clear(m, sid, seen, source, sameIsFine);
      var i := 0;
      while i < |source|
        invariant 0 <= i <= |source|
        invariant |have| == |txnAvailable| == old(|txnAvailable|) && OthersKept(ids, old(txnAvailable), txnAvailable)
        invariant Fits(m) ==>
                    Scanning(m, sid, a, slots, Met(seen, source, i), txnAvailable, have, mempoolCount - base)
        invariant clear ==> Steady(m, sid, slots, Met(seen, source, i), txnAvailable, have)
      {
        ghost var was, met := txnAvailable, Met(seen, source, i);
        MetNext(seen, source, i);
        if clear {
          ClearAt(m, sid, seen, source, sameIsFine, i);
        }
        have := MatchOne(m, sid, source[i], ids, have, sameIsFine, a, slots, met, base, clear);
        OthersStillKept(ids, old(txnAvailable), was, txnAvailable);
        i := i + 1;
        if mempoolCount == |ids| {
          break;
        }
      }
      MetBounds(seen, source, i);
      if i < |source| {
        if Fits(m) {
          ScanningMore(m, sid, a, slots, Met(seen, source, i), seen + Elements(source), txnAvailable, have,
                       mempoolCount - base);
        }
        if clear {
          AllSlotsFilled(m, sid, a, slots, Met(seen, source, i), seen + Elements(source), txnAvailable, have,
                         mempoolCount);
        }
      }
    }

    method InitData(m: Message, sid: Tx -> nat, extra: seq<Tx>, maxTxs: nat, crowded: nat -> bool)
      returns (status: ReadStatus, ghost a: seq<Option<Tx>>, ghost slots: seq<nat>)
      requires headerNull && txnAvailable == [] && !(NoneLeft(m) && WellFormed(m, maxTxs))
      modifies this
      ensures status != StatusCheckBlockFailed && (status == StatusInvalid <==> !WellFormed(m, maxTxs))
      ensures status == StatusOk <==>
                WellFormed(m, maxTxs) && Distinct(m.shortids) && forall i :: 0 <= i < |m.shortids| ==> !crowded(i)
      ensures status == StatusOk ==> !headerNull && |txnAvailable| == |m.shortids| + |m.prefilled|
      ensures status == StatusOk && Fits(m) ==>
                && Initialized(m, sid, Known(pool, extra), a, slots, txnAvailable)
                && CountFree(txnAvailable, |txnAvailable|) == |m.shortids| - (mempoolCount - old(mempoolCount))
      ensures status == StatusOk ==> forall p :: 0x1_0000 <= p < |txnAvailable| ==> txnAvailable[p].None?
      ensures status == StatusOk && Fits(m) && old(mempoolCount) == 0 && Distinct(pool) &&
              Telling(m, sid, Known(pool, extra)) ==>
                Complete(m, sid, slots, Known(pool, extra), txnAvailable)
    {
      hide Placed, Bound, CountFree, Complete, Distinct, Telling, PrefillOk, Initialized, Known;
      a, slots := [], [];
      if m.headerNull || (m.shortids == [] && m.prefilled == []) {
        return StatusInvalid, a, slots;
      }
      if |m.shortids| + |m.prefilled| > maxTxs {
        return StatusInvalid, a, slots;
      }
      headerNull := false;
      txnAvailable := seq(|m.shortids| + |m.prefilled|, _ => None);
      PlacedStart(m, txnAvailable);
      var ok := PlacePrefilled(m);
      if !ok {
        return StatusInvalid, a, slots;
      }
      prefilledCount := |m.prefilled|;
      a := txnAvailable;
      var ids;
      ghost var wide;
      ok, ids, slots, wide := BindIds(m, crowded);
      if !ok {
        return StatusFailed, a, slots;
      }
      ScanSources(m, sid, extra, ids, a, slots, wide);
      return StatusOk, a, slots;
    }

    /** Both scans, over the memory pool and over the extra transactions. */
    method ScanSources(m: Message, sid: Tx -> nat, extra: seq<Tx>, ids: map<nat, nat>, ghost a: seq<Option<Tx>>,
                       ghost slots: seq<nat>, ghost wide: map<nat, nat>)
      requires txnAvailable == a && Placed(m, |m.prefilled|, a) && Distinct(m.shortids) && PrefillOk(m, |m.prefilled|)
      requires Bound(m, a, |m.shortids|, slots, wide) && |wide| == |m.shortids| && ids == Narrow(wide)
      modifies this`txnAvailable, this`mempoolCount
      ensures |txnAvailable| == |m.shortids| + |m.prefilled|
      ensures forall p :: 0x1_0000 <= p < |txnAvailable| ==> txnAvailable[p].None?
      ensures Fits(m) ==> Initialized(m, sid, Known(pool, extra), a, slots, txnAvailable)
      ensures Fits(m) ==>
                CountFree(txnAvailable, |txnAvailable|) == |m.shortids| - (mempoolCount - old(mempoolCount))
      ensures Fits(m) && old(mempoolCount) == 0 && Distinct(pool) && Telling(m, sid, Known(pool, extra)) ==>
                Complete(m, sid, slots, Known(pool, extra), txnAvailable)
    {
      hide Placed, Bound, CountFree, Filled, Complete, Steady, Clear, Scanning, Elements, Distinct, Telling, IsSlot,
           PrefillOk, Fits, Narrow;
      ghost var base := mempoolCount;
      PlacedSize(m, |m.prefilled|, a);
      EmptyBeyond(m, a);
      NarrowRange(m, a, slots, wide);
      ScanningStart(m, sid, a, slots, wide, {});
      BoundSlots(m, a, slots, wide);
      var have := seq(|txnAvailable|, _ => false);
      NothingSought(m, sid, slots, a, have, pool, extra);
      have := ScanSource(m, sid, pool, ids, have, false, a, slots, {}, base);
      assert {} + Elements(pool) == Elements(pool);
      have := ScanSource(m, sid, extra, ids, have, true, a, slots, Elements(pool), base);
      if Fits(m) {
        ScanningEnd(m, sid, a, slots, Known(pool, extra), txnAvailable, have, mempoolCount - base);
      }
      SteadyIsComplete(m, sid, slots, Known(pool, extra), txnAvailable, have);
    }

    /** Fills the empty positions in order with the transactions given. */
    method FillBlock(missing: seq<Tx>, check: seq<Tx> -> BlockCheck) returns (status: ReadStatus, vtx: seq<Tx>)
      requires !headerNull
      modifies this
      ensures status == StatusInvalid <==> |missing| != old(CountFree(txnAvailable, |txnAvailable|))
      ensures |missing| >= old(CountFree(txnAvailable, |txnAvailable|)) ==> headerNull && txnAvailable == []
      ensures status != StatusInvalid ==> IsFilledIn(old(txnAvailable), missing, vtx)
      ensures status == StatusOk ==> check(vtx) == BlockGood
      ensures status == StatusFailed ==> check(vtx) == BlockCorrupt
      ensures status == StatusCheckBlockFailed ==> check(vtx) == BlockBad
    {
      hide CountFree;
      ghost var was := txnAvailable;
      var size := |txnAvailable|;
      vtx := [];
      var offset := 0;
      CountNone(was);
      var i := 0;
      while i < size
        invariant 0 <= i <= size == |txnAvailable| == |was| && |vtx| == i && !headerNull
        invariant offset == CountFree(was, i) <= |missing|
        invariant forall p :: i <= p < size ==> txnAvailable[p] == was[p]
        invariant forall p :: 0 <= p < i && was[p].Some? ==> vtx[p] == was[p].value
        invariant forall p :: 0 <= p < i && was[p].None? ==>
                    CountFree(was, p) < |missing| && vtx[p] == missing[CountFree(was, p)]
      {
        CountNext(was, i);
        if txnAvailable[i].None? {
          if |missing| <= offset {
            CountFreeMono(was, i + 1, size);
            return StatusInvalid, vtx;
          }
          vtx := vtx + [missing[offset]];
          offset := offset + 1;
        } else {
          vtx := vtx + [txnAvailable[i].value];
          txnAvailable := txnAvailable[i := None];
        }
        i := i + 1;
      }
      headerNull := true;
      txnAvailable := [];
      if |missing| != offset {
        return StatusInvalid, vtx;
      }
      match check(vtx)
      case BlockGood => status := StatusOk;
      case BlockCorrupt => status := StatusFailed;
      case BlockBad => status := StatusCheckBlockFailed;
    }
  }

  ghost function Elements(s: seq<Tx>): set<Tx> { set t | t in s }

  ghost function Known(pool: seq<Tx>, extra: seq<Tx>): set<Tx> { Elements(pool) + Elements(extra) }

  /** No two of the given transactions share a short id that is asked for. */
  ghost predicate Telling(m: Message, sid: Tx -> nat, known: set<Tx>) {
    forall t, u :: t in known && u in known && sid(t) == sid(u) && sid(t) in m.shortids ==> t == u
  }

  /** Nothing in this source makes a slot be emptied again. */
  ghost predicate Clear(m: Message, sid: Tx -> nat, seen: set<Tx>, source: seq<Tx>, sameIsFine: bool) {
    Telling(m, sid, seen + Elements(source)) && (sameIsFine || (seen == {} && Distinct(source)))
  }

  /** Every transaction that was met and is asked for has filled its slot. */
  ghost predicate Complete(m: Message, sid: Tx -> nat, slots: seq<nat>, met: set<Tx>, txn: seq<Option<Tx>>) {
    && |slots| == |m.shortids|
    && forall i, t :: 0 <= i < |slots| && t in met && sid(t) == m.shortids[i] ==>
         slots[i] < |txn| && txn[slots[i]].Some?
  }

  /** What has been met after i transactions of a source. */
  ghost function Met(seen: set<Tx>, source: seq<Tx>, i: nat): set<Tx>
    requires i <= |source|
  {
    seen + Elements(source[..i])
  }

  lemma MetNext(seen: set<Tx>, source: seq<Tx>, i: nat)
    requires i < |source|
    ensures Met(seen, source, i + 1) == Met(seen, source, i) + {source[i]}
  {
    assert source[..i + 1] == source[..i] + [source[i]];
  }

  lemma MetBounds(seen: set<Tx>, source: seq<Tx>, i: nat)
    requires i <= |source|
    ensures Met(seen, source, 0) == seen && Met(seen, source, i) <= seen + Elements(source)
    ensures i == |source| ==> Met(seen, source, i) == seen + Elements(source)
  {
    ElementsPrefix(source, i);
    assert source[..|source|] == source;
  }

  lemma ElementsPrefix(s: seq<Tx>, i: nat)
    requires i <= |s|
    ensures Elements(s[..i]) <= Elements(s)
  {
  }

  lemma ScanningMore(m: Message, sid: Tx -> nat, a: seq<Option<Tx>>, slots: seq<nat>, met: set<Tx>, meets: set<Tx>,
                     txn: seq<Option<Tx>>, have: seq<bool>, count: int)
    requires met <= meets && Scanning(m, sid, a, slots, met, txn, have, count)
    ensures Scanning(m, sid, a, slots, meets, txn, have, count)
  {
    hide CountFree;
  }

  /** While nothing is emptied again, a marked slot is filled. */
  ghost predicate Steady(m: Message, sid: Tx -> nat, slots: seq<nat>, met: set<Tx>, txn: seq<Option<Tx>>,
                         have: seq<bool>) {
    && Complete(m, sid, slots, met, txn)
    && forall i :: 0 <= i < |slots| && slots[i] < |txn| && slots[i] < |have| && have[slots[i]] ==> txn[slots[i]].Some?
  }

  lemma SteadyIsComplete(m: Message, sid: Tx -> nat, slots: seq<nat>, met: set<Tx>, txn: seq<Option<Tx>>,
                         have: seq<bool>)
    ensures Steady(m, sid, slots, met, txn, have) ==> Complete(m, sid, slots, met, txn)
  {
  }

  lemma NothingSought(m: Message, sid: Tx -> nat, slots: seq<nat>, a: seq<Option<Tx>>, have: seq<bool>, pool: seq<Tx>,
                      extra: seq<Tx>)
    requires |slots| == |m.shortids| && forall i :: 0 <= i < |have| ==> !have[i]
    ensures Steady(m, sid, slots, {}, a, have)
    ensures Distinct(pool) && Telling(m, sid, Known(pool, extra)) ==>
              Clear(m, sid, {}, pool, false) && Clear(m, sid, Elements(pool), extra, true)
  {
    assert {} + Elements(pool) == Elements(pool);
  }

  /** What meeting source[i] can mean: no other transaction met before has its short id. */
  lemma ClearAt(m: Message, sid: Tx -> nat, seen: set<Tx>, source: seq<Tx>, sameIsFine: bool, i: nat)
    requires Clear(m, sid, seen, source, sameIsFine) && i < |source|
    ensures forall u :: u in Met(seen, source, i) && sid(u) == sid(source[i]) && sid(u) in m.shortids ==>
                          u == source[i] && sameIsFine
  {
    forall u | u in seen + Elements(source[..i]) && sid(u) == sid(source[i]) && sid(u) in m.shortids
      ensures u == source[i] && sameIsFine
    {
      ElementsPrefix(source, i);
      assert source[i] in Elements(source);
      NotEarlier(source, i);
      assert u == source[i];
    }
  }

  lemma NotEarlier(source: seq<Tx>, i: nat)
    requires i < |source|
    ensures Distinct(source) ==> source[i] !in Elements(source[..i])
  {
  }

  lemma SteadyNext(m: Message, sid: Tx -> nat, a: seq<Option<Tx>>, slots: seq<nat>, ids: map<nat, nat>, met: set<Tx>,
                   txn: seq<Option<Tx>>, have: seq<bool>, count: int, t: Tx, sameIsFine: bool)
    requires Bound(m, a, |m.shortids|, slots, ids) && |ids| == |m.shortids|
    requires Scanning(m, sid, a, slots, met, txn, have, count) && Steady(m, sid, slots, met, txn, have)
    requires forall u :: u in met && sid(u) == sid(t) && sid(u) in m.shortids ==> u == t && sameIsFine
    ensures sid(t) !in ids ==> Steady(m, sid, slots, met + {t}, txn, have)
    ensures sid(t) in ids ==>
              var p := ids[sid(t)];
              && p < |txn| == |have|
              && (!have[p] ==> Steady(m, sid, slots, met + {t}, txn[p := Some(t)], have[p := true]))
              && (have[p] ==> txn[p] == Some(t) && sameIsFine && Steady(m, sid, slots, met + {t}, txn, have))
  {
    hide CountFree;
    BoundSlots(m, a, slots, ids);
    if sid(t) !in ids {
      NotBound(m, a, slots, ids, sid(t));
    } else {
      var i := BoundSlot(m, a, slots, ids, sid(t));
      OnlySlot(m, a, slots, ids, i);
      if have[ids[sid(t)]] {
        assert SlotOk(m.shortids[i], sid, met, txn[slots[i]]);
      }
    }
  }

  lemma NotBound(m: Message, a: seq<Option<Tx>>, slots: seq<nat>, ids: map<nat, nat>, s: nat)
    requires Bound(m, a, |m.shortids|, slots, ids) && s !in ids
    ensures s !in m.shortids
  {
  }

  lemma OnlySlot(m: Message, a: seq<Option<Tx>>, slots: seq<nat>, ids: map<nat, nat>, i: nat)
    requires Bound(m, a, |m.shortids|, slots, ids) && |ids| == |m.shortids| && i < |m.shortids|
    ensures forall k :: 0 <= k < |m.shortids| ==> (m.shortids[k] == m.shortids[i] <==> k == i)
    ensures forall k :: 0 <= k < |m.shortids| ==> (slots[k] == slots[i] <==> k == i)
  {
    forall k | 0 <= k < |m.shortids| ensures slots[k] == slots[i] <==> k == i {
      SlotsIncrease(a, i, slots[i], k, slots[k]);
    }
    assert forall k :: 0 <= k < |m.shortids| ==> ids[m.shortids[k]] == slots[k];
  }

  /** When no slot is left there is nothing more to find. */
  lemma AllSlotsFilled(m: Message, sid: Tx -> nat, a: seq<Option<Tx>>, slots: seq<nat>, met: set<Tx>, all: set<Tx>,
                       txn: seq<Option<Tx>>, have: seq<bool>, count: int)
    requires Scanning(m, sid, a, slots, met, txn, have, count) && count == |m.shortids|
    ensures Steady(m, sid, slots, all, txn, have)
  {
    forall i | 0 <= i < |slots| ensures slots[i] < |txn| && txn[slots[i]].Some? {
      NoneFree(txn, slots[i], |txn|);
    }
  }

  lemma NoneFree(txn: seq<Option<Tx>>, p: nat, q: nat)
    requires p < q <= |txn| && CountFree(txn, q) == 0
    ensures txn[p].Some?
  {
    CountFreeMono(txn, p + 1, q);
  }

  lemma PlacedSize(m: Message, n: nat, a: seq<Option<Tx>>)
    requires n <= |m.prefilled| && Placed(m, n, a)
    ensures |a| == |m.shortids| + |m.prefilled| && CountFree(a, |a|) == |a| - n
  {
  }

  lemma CountNone(a: seq<Option<Tx>>)
    ensures CountFree(a, 0) == 0
  {
  }

  lemma CountNext(a: seq<Option<Tx>>, p: nat)
    requires p < |a|
    ensures CountFree(a, p + 1) == CountFree(a, p) + if a[p].None? then 1 else 0
  {
  }

  lemma {:induction false} TakenBelow(a: seq<Option<Tx>>, p: nat, q: nat)
    requires p <= q <= |a|
    ensures p - CountFree(a, p) <= q - CountFree(a, q)
    decreases q
  {
    if p < q {
      TakenBelow(a, p, q - 1);
    }
  }

  lemma BoundStart(m: Message, a: seq<Option<Tx>>)
    ensures Bound(m, a, 0, [], map[])
  {
  }

  lemma BoundSize(m: Message, a: seq<Option<Tx>>, slots: seq<nat>, ids: map<nat, nat>)
    requires Bound(m, a, |m.shortids|, slots, ids)
    ensures |ids| == |m.shortids| <==> Distinct(m.shortids)
  {
    if |ids| == |m.shortids| {
      forall i, j | 0 <= i < j < |m.shortids| ensures m.shortids[i] != m.shortids[j] {
        BoundDistinct(m, a, slots, ids, i, j);
      }
    } else if Distinct(m.shortids) {
      DistinctSize(m.shortids, ids.Keys);
    }
  }

  lemma {:induction false} DistinctSize(s: seq<nat>, keys: set<nat>)
    requires Distinct(s) && forall i :: 0 <= i < |s| ==> s[i] in keys
    ensures |s| <= |keys|
  {
    if s != [] {
      var n := |s| - 1;
      DistinctSize(s[..n], keys - {s[n]});
    }
  }

  lemma BoundSlots(m: Message, a: seq<Option<Tx>>, slots: seq<nat>, ids: map<nat, nat>)
    requires Bound(m, a, |m.shortids|, slots, ids)
    ensures |slots| == |m.shortids| && forall i :: 0 <= i < |slots| ==> IsSlot(a, i, slots[i])
  {
  }

  lemma ScanningStart(m: Message, sid: Tx -> nat, a: seq<Option<Tx>>, slots: seq<nat>, ids: map<nat, nat>,
                      known: set<Tx>)
    requires Placed(m, |m.prefilled|, a) && Bound(m, a, |m.shortids|, slots, ids)
    ensures Scanning(m, sid, a, slots, known, a, seq(|a|, _ => false), 0)
  {
    hide CountFree;
    forall i | 0 <= i < |slots| ensures slots[i] < |a| && a[slots[i]].None? {
      assert IsSlot(a, i, slots[i]);
    }
  }

  lemma ScanningEnd(m: Message, sid: Tx -> nat, a: seq<Option<Tx>>, slots: seq<nat>, known: set<Tx>,
                    txn: seq<Option<Tx>>, have: seq<bool>, count: int)
    requires Scanning(m, sid, a, slots, known, txn, have, count)
    ensures |slots| == |m.shortids| && Filled(m, sid, a, slots, known, txn) &&
              CountFree(txn, |txn|) == |m.shortids| - count
  {
  }

  // ----- The sender -----

  ghost function Announcement(block: seq<Tx>, sid: Tx -> nat): Message
    requires block != []
  {
    Message(false, seq(|block| - 1, i requires 0 <= i < |block| - 1 => sid(block[i + 1])),
            [Prefilled(0, Some(block[0]))])
  }

  method Announce(block: seq<Tx>, sid: Tx -> nat) returns (m: Message)
    requires block != []
    ensures m == Announcement(block, sid)
  {
    var shorttxids: seq<nat> := [];
    for i := 1 to |block|
      invariant |shorttxids| == i - 1 && forall k :: 0 <= k < i - 1 ==> shorttxids[k] == sid(block[k + 1])
    {
      shorttxids := shorttxids + [sid(block[i])];
    }
    m := Message(false, shorttxids, [Prefilled(0, Some(block[0]))]);
  }

  /** Short ids tell the transactions of the block and those the receiver knows apart. */
  ghost predicate IdsTell(block: seq<Tx>, known: set<Tx>, sid: Tx -> nat) {
    forall t, u :: t in block && (u in block || u in known) && sid(t) == sid(u) ==> t == u
  }

  lemma AnnouncementAccepted(block: seq<Tx>, sid: Tx -> nat, known: set<Tx>, maxTxs: nat)
    requires 1 <= |block| <= 0x1_0000 && |block| <= maxTxs && Distinct(block) && IdsTell(block, known, sid)
    ensures WellFormed(Announcement(block, sid), maxTxs) && Distinct(Announcement(block, sid).shortids)
  {
    var m := Announcement(block, sid);
    forall i, j | 0 <= i < j < |m.shortids|
      ensures m.shortids[i] != m.shortids[j]
    {
      assert block[i + 1] in block && block[j + 1] in block;
    }
  }

  /** With the coinbase prefilled, short id i belongs to position i + 1. */
  lemma AnnouncedSlot(block: seq<Tx>, sid: Tx -> nat, a: seq<Option<Tx>>, slots: seq<nat>, i: nat)
    requires block != [] && Placed(Announcement(block, sid), 1, a) && i < |slots| == |block| - 1 &&
               IsSlot(a, i, slots[i])
    ensures |a| == |block| && a[0] == Some(block[0]) && slots[i] == i + 1
  {
    var m := Announcement(block, sid);
    assert PlacedAt(m, a, 0);
    assert PositionOf(m.prefilled, 0) == 0;
    AllFreeAbove(a, i + 1);
    SlotsIncrease(a, i, slots[i], i, i + 1);
  }

  lemma {:induction false} AllFreeAbove(a: seq<Option<Tx>>, p: nat)
    requires 0 < p <= |a| && a[0].Some? && forall k :: 0 < k < |a| ==> a[k].None?
    ensures CountFree(a, p) == p - 1
  {
    if p > 1 {
      AllFreeAbove(a, p - 1);
    }
  }

  /** Every position holds the sender's transaction or nothing. */
  lemma HoldsSenders(block: seq<Tx>, sid: Tx -> nat, known: set<Tx>, a: seq<Option<Tx>>, slots: seq<nat>,
                     txn: seq<Option<Tx>>, p: nat)
    requires block != [] && IdsTell(block, known, sid) &&
               Initialized(Announcement(block, sid), sid, known, a, slots, txn)
    requires p < |block|
    ensures |txn| == |block| && (txn[p].Some? ==> txn[p].value == block[p])
  {
    hide CountFree;
    var m := Announcement(block, sid);
    if p == 0 {
      assert PlacedAt(m, a, 0);
      assert PositionOf(m.prefilled, 0) == 0;
    } else {
      AnnouncedSlot(block, sid, a, slots, p - 1);
      assert SlotOk(m.shortids[p - 1], sid, known, txn[slots[p - 1]]);
      assert block[p] in block;
    }
  }

  // ----- Asking for what is missing -----

  /** The empty positions in order. */
  ghost function FreePositions(txn: seq<Option<Tx>>, p: nat): (r: seq<nat>)
    requires p <= |txn|
    ensures |r| == CountFree(txn, p) && forall i :: 0 <= i < |r| ==> r[i] < p && txn[r[i]].None?
  {
    if p == 0 then [] else FreePositions(txn, p - 1) + if txn[p - 1].None? then [p - 1] else []
  }

  lemma {:induction false} FreePositionsAt(txn: seq<Option<Tx>>, p: nat, q: nat)
    requires p < q <= |txn| && txn[p].None?
    ensures CountFree(txn, p) < CountFree(txn, q) && FreePositions(txn, q)[CountFree(txn, p)] == p
    decreases q
  {
    if p < q - 1 {
      FreePositionsAt(txn, p, q - 1);
    }
  }

  ghost predicate Increasing(s: seq<nat>) {
    forall i, j :: 0 <= i < j < |s| ==> s[i] < s[j]
  }

  lemma {:induction false} FreePositionsIncrease(txn: seq<Option<Tx>>, p: nat)
    requires p <= |txn|
    ensures Increasing(FreePositions(txn, p))
  {
    if p > 0 {
      FreePositionsIncrease(txn, p - 1);
    }
  }

  method MissingPositions(txn: seq<Option<Tx>>) returns (r: seq<nat>)
    ensures r == FreePositions(txn, |txn|)
  {
    r := [];
    for p := 0 to |txn|
      invariant r == FreePositions(txn, p)
    {
      if txn[p].None? {
        r := r + [p];
      }
    }
  }

  method Lookup(block: seq<Tx>, indexes: seq<nat>) returns (r: seq<Tx>)
    requires forall i :: 0 <= i < |indexes| ==> indexes[i] < |block|
    ensures |r| == |indexes| && forall i :: 0 <= i < |r| ==> r[i] == block[indexes[i]]
  {
    r := seq(|indexes|, i requires 0 <= i < |indexes| => block[indexes[i]]);
  }

  /** Filling the gaps with the sender's transactions gives the sender's block. */
  lemma FillsToBlock(block: seq<Tx>, txn: seq<Option<Tx>>, missing: seq<Tx>, vtx: seq<Tx>)
    requires |txn| == |block| && forall p :: 0 <= p < |txn| && txn[p].Some? ==> txn[p].value == block[p]
    requires |missing| == CountFree(txn, |txn|)
    requires forall i :: 0 <= i < |missing| ==> missing[i] == block[FreePositions(txn, |txn|)[i]]
    requires IsFilledIn(txn, missing, vtx)
    ensures vtx == block
  {
    hide CountFree, FreePositions;
    forall p | 0 <= p < |vtx|
      ensures vtx[p] == block[p]
    {
      if txn[p].None? {
        FreePositionsAt(txn, p, |txn|);
      }
    }
  }

  // ----- The request on the wire -----

  /** An index as the distance from the one before, in 64 bits. */
  function Difference(indexes: seq<nat>, i: nat): nat
    requires i < |indexes|
  {
    var last: int := if i == 0 then -1 else indexes[i - 1];
    (indexes[i] - (last + 1)) % WORD64
  }

  ghost function Differences(indexes: seq<nat>): (r: seq<nat>)
    ensures |r| == |indexes| && forall i :: 0 <= i < |r| ==> r[i] == Difference(indexes, i)
  {
    seq(|indexes|, i requires 0 <= i < |indexes| => Difference(indexes, i))
  }

  /** The offset is kept in 16 bits. */
  function Offset(indexes: seq<nat>): nat {
    if indexes == [] then 0 else (indexes[|indexes| - 1] + 1) % 0x1_0000
  }

  ghost function Next(before: Option<seq<nat>>, d: nat): Option<seq<nat>> {
    if before.None? || d + Offset(before.value) > MAX_INDEX then None
    else Some(before.value + [d + Offset(before.value)])
  }

  /** The running sum read back; None where reading throws. */
  ghost function Accumulated(ds: seq<nat>): (r: Option<seq<nat>>)
    ensures r.Some? ==> |r.value| == |ds| && forall i :: 0 <= i < |ds| ==> r.value[i] <= 0xffff
  {
    if ds == [] then Some([]) else Next(Accumulated(ds[..|ds| - 1]), ds[|ds| - 1])
  }

  lemma AccumulatedNext(ds: seq<nat>, n: nat)
    requires n < |ds|
    ensures Accumulated(ds[..n + 1]) == Next(Accumulated(ds[..n]), ds[n])
  {
    assert ds[..n + 1][..n] == ds[..n];
  }

  method WriteIndexes(indexes: seq<nat>) returns (ds: seq<nat>)
    ensures ds == Differences(indexes)
  {
    ds := [];
    for i := 0 to |indexes|
      invariant |ds| == i && forall k :: 0 <= k < i ==> ds[k] == Differences(indexes)[k]
    {
      ds := ds + [Difference(indexes, i)];
    }
  }

  method ReadIndexes(ds: seq<nat>) returns (r: Option<seq<nat>>)
    ensures r == Accumulated(ds)
  {
    for i := 0 to |ds|
      invariant forall k :: 0 <= k < i ==> ds[k] <= MAX_INDEX
    {
      if ds[i] > MAX_INDEX {
        TooLarge(ds, i);
        return None;
      }
    }
    var indexes: seq<nat> := [];
    var offset := 0;
    for j := 0 to |ds|
      invariant Accumulated(ds[..j]) == Some(indexes) && offset == Offset(indexes)
    {
      AccumulatedNext(ds, j);
      if ds[j] + offset > MAX_INDEX {
        StaysNone(ds, j + 1);
        return None;
      }
      indexes := indexes + [ds[j] + offset];
      offset := (indexes[j] + 1) % 0x1_0000;
    }
    assert ds[..|ds|] == ds;
    return Some(indexes);
  }

  lemma {:induction false} StaysNone(ds: seq<nat>, n: nat)
    requires n <= |ds| && Accumulated(ds[..n]).None?
    ensures Accumulated(ds).None?
    decreases |ds|
  {
    if n == |ds| {
      assert ds[..n] == ds;
    } else {
      var k := |ds| - 1;
      assert ds[..k][..n] == ds[..n];
      StaysNone(ds[..k], n);
    }
  }

  lemma TooLarge(ds: seq<nat>, i: nat)
    requires i < |ds| && ds[i] > MAX_INDEX
    ensures Accumulated(ds).None?
  {
    StaysNone(ds, i + 1);
  }

  /** Strictly increasing 16-bit indexes are read back as they were written. */
  lemma {:induction false} IndexesRoundTrip(indexes: seq<nat>)
    requires Increasing(indexes) && forall i :: 0 <= i < |indexes| ==> indexes[i] <= 0xffff
    ensures Accumulated(Differences(indexes)) == Some(indexes)
  {
    hide Accumulated;
    var ds := Differences(indexes);
    if indexes == [] {
      assert Accumulated([]) == Some([]) by { NothingAccumulated(); }
    } else {
      var n := |indexes| - 1;
      var t := indexes[..n];
      IndexesRoundTrip(t);
      assert ds[..n] == Differences(t);
      AccumulatedNext(ds, n);
      assert ds[..n + 1] == ds;
      assert ds[n] + Offset(t) == indexes[n] by { SmallDifference(indexes, n); }
      assert indexes == t + [indexes[n]];
    }
  }

  lemma NothingAccumulated()
    ensures Accumulated([]) == Some([])
  {
  }

  lemma SmallDifference(indexes: seq<nat>, n: nat)
    requires n < |indexes| && indexes[n] <= MAX_INDEX && (n > 0 ==> indexes[n - 1] < indexes[n])
    ensures Difference(indexes, n) + Offset(indexes[..n]) == indexes[n]
  {
  }

  ghost function Total(ds: seq<nat>): nat {
    if ds == [] then 0 else Total(ds[..|ds| - 1]) + ds[|ds| - 1]
  }

  lemma IncreasesByLast(ds: seq<nat>)
    requires ds != []
    ensures Accumulated(ds) == Next(Accumulated(ds[..|ds| - 1]), ds[|ds| - 1])
    ensures |ds| == 1 ==> Accumulated(ds[..|ds| - 1]) == Some([]) && Increasing(Accumulated(ds[..|ds| - 1]).value)
    ensures Accumulated(ds).Some? ==>
              var r, t := Accumulated(ds).value, Accumulated(ds[..|ds| - 1]).value;
              Increasing(r) <==> Increasing(t) && (t != [] ==> t[|t| - 1] < r[|t|])
  {
    if Accumulated(ds).Some? {
      var r, t := Accumulated(ds).value, Accumulated(ds[..|ds| - 1]).value;
      IncreasingSnoc(t, r[|t|]);
    }
  }

  lemma IncreasingSnoc(t: seq<nat>, x: nat)
    ensures Increasing(t + [x]) <==> Increasing(t) && (t != [] ==> t[|t| - 1] < x)
  {
    var r := t + [x];
    if Increasing(r) {
      assert forall i :: 0 <= i < |t| ==> r[i] == t[i];
      assert t != [] ==> r[|t| - 1] < r[|t|];
    }
  }

  /** A request is accepted and increases exactly if its last index, counted without the
      16-bit offset, fits 16 bits. */
  lemma {:induction false} AcceptedAndIncreasing(ds: seq<nat>)
    requires ds != []
    ensures Accumulated(ds).Some? && Increasing(Accumulated(ds).value) <==> Total(ds) + |ds| - 1 <= 0xffff
    ensures Accumulated(ds).Some? && Increasing(Accumulated(ds).value) ==>
              Accumulated(ds).value[|ds| - 1] == Total(ds) + |ds| - 1
  {
    hide Accumulated, Increasing;
    IncreasesByLast(ds);
    if |ds| > 1 {
      AcceptedAndIncreasing(ds[..|ds| - 1]);
    }
  }

  /** What is read from a request that is accepted increases exactly if the indexes before the
      last leave room for another one: at 65535 the offset wraps to zero. */
  lemma ReadIncreases(ds: seq<nat>)
    requires ds != [] && Accumulated(ds).Some?
    ensures Increasing(Accumulated(ds).value) <==> Total(ds[..|ds| - 1]) + |ds| - 1 <= 0xffff
  {
    hide Accumulated, Increasing;
    IncreasesByLast(ds);
    AcceptedAndIncreasing(ds);
    if |ds| > 1 {
      AcceptedAndIncreasing(ds[..|ds| - 1]);
    }
  }

  /** A request that does not increase is read without complaint. */
  lemma OffsetWraps()
    ensures Accumulated([0xffff, 0]) == Some([0xffff, 0]) && !Increasing([0xffff, 0])
  {
    hide Accumulated;
    var ds: seq<nat> := [MAX_INDEX, 0];
    NothingAccumulated();
    assert ds[..0] == [] && ds[..2] == ds;
    AccumulatedNext(ds, 0);
    AccumulatedNext(ds, 1);
    assert Next(Some([]), MAX_INDEX).value == [MAX_INDEX];
    assert Next(Some([MAX_INDEX]), 0).value == ds;
  }

  // ----- The whole exchange -----

  lemma {:induction false} FreePositionsAre(txn: seq<Option<Tx>>, q: nat)
    requires q <= |txn|
    ensures forall p :: p in FreePositions(txn, q) <==> 0 <= p < q && txn[p].None?
  {
    if q > 0 {
      FreePositionsAre(txn, q - 1);
    }
  }

  /** Exactly the transactions the receiver does not know are asked for. */
  lemma AsksForUnknown(block: seq<Tx>, sid: Tx -> nat, pool: seq<Tx>, extra: seq<Tx>,
                       a: seq<Option<Tx>>, slots: seq<nat>, txn: seq<Option<Tx>>)
    requires block != [] && IdsTell(block, Known(pool, extra), sid)
    requires Initialized(Announcement(block, sid), sid, Known(pool, extra), a, slots, txn)
    ensures Telling(Announcement(block, sid), sid, Known(pool, extra))
    ensures Complete(Announcement(block, sid), sid, slots, Known(pool, extra), txn) ==>
              |txn| == |block| && forall p :: 0 <= p < |block| ==>
                (p in FreePositions(txn, |txn|) <==> p > 0 && block[p] !in Known(pool, extra))
  {
    hide CountFree, FreePositions, Known, Placed, Filled;
    var m, known := Announcement(block, sid), Known(pool, extra);
    TellingKnown(block, sid, known);
    if Complete(m, sid, slots, known, txn) {
      FreePositionsAre(txn, |txn|);
      forall p | 0 <= p < |block|
        ensures |txn| == |block| && (txn[p].None? <==> p > 0 && block[p] !in known)
      {
        FilledExactly(block, sid, known, a, slots, txn, p);
      }
      HoldsSenders(block, sid, known, a, slots, txn, 0);
    }
  }

  lemma TellingKnown(block: seq<Tx>, sid: Tx -> nat, known: set<Tx>)
    requires block != [] && IdsTell(block, known, sid)
    ensures Telling(Announcement(block, sid), sid, known)
  {
    var m := Announcement(block, sid);
    forall t, u | t in known && u in known && sid(t) == sid(u) && sid(t) in m.shortids
      ensures t == u
    {
      var i :| 0 <= i < |m.shortids| && m.shortids[i] == sid(t);
      assert block[i + 1] in block;
    }
  }

  lemma FilledExactly(block: seq<Tx>, sid: Tx -> nat, known: set<Tx>, a: seq<Option<Tx>>, slots: seq<nat>,
                      txn: seq<Option<Tx>>, p: nat)
    requires block != [] && IdsTell(block, known, sid) &&
               Initialized(Announcement(block, sid), sid, known, a, slots, txn)
    requires Complete(Announcement(block, sid), sid, slots, known, txn) && p < |block|
    ensures |txn| == |block| && (txn[p].None? <==> p > 0 && block[p] !in known)
  {
    hide CountFree;
    var m := Announcement(block, sid);
    HoldsSenders(block, sid, known, a, slots, txn, p);
    if p == 0 {
      assert PlacedAt(m, a, 0);
      assert PositionOf(m.prefilled, 0) == 0;
    } else {
      AnnouncedSlot(block, sid, a, slots, p - 1);
      assert m.shortids[p - 1] == sid(block[p]);
      assert SlotOk(m.shortids[p - 1], sid, known, txn[slots[p - 1]]);
    }
  }

  /** Announce, match, request what is missing, fill in: where short ids tell transactions
      apart, the receiver ends with the sender's block. */
  method Relay(block: seq<Tx>, sid: Tx -> nat, pool: seq<Tx>, extra: seq<Tx>, maxTxs: nat,
               crowded: nat -> bool, check: seq<Tx> -> BlockCheck)
    returns (status: ReadStatus, vtx: seq<Tx>, wanted: seq<nat>)
    requires 1 <= |block| <= 0x1_0000 && |block| <= maxTxs && Distinct(block)
    requires IdsTell(block, Known(pool, extra), sid)
    ensures (exists i :: 0 <= i < |block| - 1 && crowded(i)) ==> status == StatusFailed
    ensures (forall i :: 0 <= i < |block| - 1 ==> !crowded(i)) ==> status != StatusInvalid && vtx == block
    ensures (forall i :: 0 <= i < |block| - 1 ==> !crowded(i)) && Distinct(pool) ==>
              forall p :: 0 <= p < |block| ==> (p in wanted <==> p > 0 && block[p] !in Known(pool, extra))
  {
    hide CountFree, FreePositions, Known, IdsTell, Accumulated;
    vtx, wanted := [], [];
    var m := Announce(block, sid);
    AnnouncementAccepted(block, sid, Known(pool, extra), maxTxs);
    var received := new PartiallyDownloadedBlock(pool);
    ghost var a, slots;
    status, a, slots := received.InitData(m, sid, extra, maxTxs, crowded);
    if status == StatusOk {
      var txn := received.txnAvailable;
      forall p | 0 <= p < |block| ensures |txn| == |block| && (txn[p].Some? ==> txn[p].value == block[p]) {
        HoldsSenders(block, sid, Known(pool, extra), a, slots, txn, p);
      }
      wanted := MissingPositions(txn);
      AsksForUnknown(block, sid, pool, extra, a, slots, txn);
      FreePositionsIncrease(txn, |txn|);
      IndexesRoundTrip(wanted);
      var ds := WriteIndexes(wanted);
      var asked := ReadIndexes(ds);
      var missing := Lookup(block, asked.value);
      status, vtx := received.FillBlock(missing, check);
      FillsToBlock(block, txn, missing, vtx);
    }
  }
}
