/** CuckooCache::cache (src/cuckoocache.h): a cache with eight places per element, garbage
    flags and epochs. Elements are lost only by being overwritten as garbage or displaced
    at the depth limit. */
module Cuckoo {
  import opened Bytes

  const INVALID: nat := 0xffff_ffff

  /** The bytes for a number of flags, in 32-bit arithmetic (src/cuckoocache.h:64). */
  function FlagBytes(size: nat): nat {
    (size + 7) % 0x1_0000_0000 / 8
  }

  /** They hold all flags exactly up to 2^32 - 8; rounding up wraps above. */
  lemma FlagBytesExact(size: nat)
    requires size <= INVALID
    ensures size <= 8 * FlagBytes(size) <==> size <= INVALID - 7
  {
  }

  /** bit_packed_atomic_flags */
  class BitPackedFlags {
    var mem: seq<bv8>

    ghost predicate Covers(n: nat)
      reads this
    {
      n <= 8 * |mem|
    }

    predicate BitIsSet(s: nat)
      reads this
      requires s < 8 * |mem|
    {
      BitAt(mem[s / 8], s % 8)
    }

    /** The flags of the first n entries. */
    ghost function Flags(n: nat): (r: seq<bool>)
      reads this
      requires Covers(n)
      ensures |r| == n && forall i :: 0 <= i < n ==> r[i] == BitIsSet(i)
    {
      seq(n, i requires 0 <= i < n reads this requires Covers(n) => BitIsSet(i))
    }

    /** All entries start out marked. */
    constructor (size: nat)
      requires size <= INVALID - 7
      ensures Covers(size) && forall i :: 0 <= i < size ==> BitIsSet(i)
    {
      mem := seq(FlagBytes(size), _ => 0xff);
      new;
      forall i | 0 <= i < size ensures BitIsSet(i) {
        ConstantBits(i % 8);
      }
    }

    method BitSet(s: nat, ghost n: nat)
      requires s < n && Covers(n)
      modifies this
      ensures Covers(n) && Flags(n) == old(Flags(n))[s := true]
    {
      ghost var before := mem;
      mem := mem[s / 8 := mem[s / 8] | Mask(s % 8)];
      forall i | 0 <= i < n ensures BitIsSet(i) == if i == s then true else old(BitIsSet(i)) {
        SetBit(before[s / 8], s % 8, i % 8);
      }
    }

    method BitUnset(s: nat, ghost n: nat)
      requires s < n && Covers(n)
      modifies this
      ensures Covers(n) && Flags(n) == old(Flags(n))[s := false]
    {
      ghost var before := mem;
      mem := mem[s / 8 := mem[s / 8] & !Mask(s % 8)];
      forall i | 0 <= i < n ensures BitIsSet(i) == if i == s then false else old(BitIsSet(i)) {
        ClearBit(before[s / 8], s % 8, i % 8);
      }
    }
  }

  // ----- Where elements may be -----

  /** The eight hash values of an element, each a 32-bit number. */
  datatype Hashes<!E> = Hashes(h: (nat, E) -> nat)

  /** Place i of the table is the share of a 32-bit hash in size: i / size of the range lies
      below the hash and (i + 1) / size above it. */
  ghost predicate Share(h: nat, size: nat, i: nat) {
    i * 0x1_0000_0000 <= (h % 0x1_0000_0000) * size < (i + 1) * 0x1_0000_0000
  }

  function Loc<E>(hs: Hashes<E>, size: nat, k: nat, e: E): (r: nat)
    requires size > 0
    ensures r < size && Share(hs.h(k, e), size, r)
  {
    var h := hs.h(k, e) % 0x1_0000_0000;
    ScaleBelow(h, size);
    h * size / 0x1_0000_0000
  }

  lemma ScaleBelow(h: nat, size: nat)
    requires h < 0x1_0000_0000 && size > 0
    ensures 0 <= h * size / 0x1_0000_0000 < size
  {
    assert h * size <= (0x1_0000_0000 - 1) * size;
  }

  lemma ShareUnique(h: nat, size: nat, i: nat, j: nat)
    requires Share(h, size, i) && Share(h, size, j)
    ensures i == j
  {}

  /** Slot i is one of the places of element e: one of its eight hashes falls there. */
  ghost predicate Home<E>(hs: Hashes<E>, size: nat, i: nat, e: E) {
    exists k :: 0 <= k < 8 && Share(hs.h(k, e), size, i)
  }

  /** The eight places of an element, in the order of its hashes. */
  function ComputeHashes<E>(hs: Hashes<E>, size: nat, e: E): (r: seq<nat>)
    requires size > 0
    ensures |r| == 8 && forall i :: 0 <= i < 8 ==> r[i] < size
    ensures forall k :: 0 <= k < 8 ==> Share(hs.h(k, e), size, r[k])
    ensures forall i: nat :: Home(hs, size, i, e) <==> i in r
  {
    hide Share;
    var r := seq(8, k requires 0 <= k < 8 => Loc(hs, size, k, e));
    HomesListed(hs, size, e, r);
    r
  }

  lemma HomesListed<E>(hs: Hashes<E>, size: nat, e: E, r: seq<nat>)
    requires size > 0 && |r| == 8 && forall k :: 0 <= k < 8 ==> Share(hs.h(k, e), size, r[k])
    ensures forall i: nat :: Home(hs, size, i, e) <==> i in r
  {
    hide Share;
    forall i: nat ensures Home(hs, size, i, e) <==> i in r {
      if Home(hs, size, i, e) {
        var k :| 0 <= k < 8 && Share(hs.h(k, e), size, i);
        ShareUnique(hs.h(k, e), size, i, r[k]);
      }
    }
  }

  /** What contains looks for. */
  ghost predicate Has<E>(hs: Hashes<E>, table: seq<E>, e: E)
    requires |table| > 0
  {
    exists i :: 0 <= i < |table| && Home(hs, |table|, i, e) && table[i] == e
  }

  /** Every slot holds an element of that place, unless it was never written. */
  ghost predicate Placed<E>(hs: Hashes<E>, table: seq<E>, garbage: seq<bool>, blank: E)
    requires |table| > 0
  {
    && |garbage| == |table|
    && forall i :: 0 <= i < |table| ==> Home(hs, |table|, i, table[i]) || (garbage[i] && table[i] == blank)
  }

  /** No element but the initial blank one is held twice. */
  ghost predicate HeldOnce<E>(hs: Hashes<E>, table: seq<E>, blank: E)
    requires |table| > 0
  {
    forall i, j :: 0 <= i < j < |table| && Home(hs, |table|, i, table[i]) && Home(hs, |table|, j, table[j]) &&
                   table[i] == table[j] ==>
      table[i] == blank
  }

  ghost predicate NotHeld<E>(hs: Hashes<E>, table: seq<E>, e: E, blank: E)
    requires |table| > 0
  {
    Has(hs, table, e) ==> e == blank
  }

  // ----- One replacement -----

  /** The same contents, counting the element in hand. */
  ghost predicate SameContents<E(!new)>(hs: Hashes<E>, table: seq<E>, e: E, table': seq<E>, e': E)
    requires |table| == |table'| > 0
  {
    && multiset(table') + multiset{e'} == multiset(table) + multiset{e}
    && forall x :: Has(hs, table', x) || x == e' <==> Has(hs, table, x) || x == e
  }

  lemma ReplaceMultiset<E>(table: seq<E>, i: nat, e: E)
    requires i < |table|
    ensures multiset(table[i := e]) + multiset{table[i]} == multiset(table) + multiset{e}
  {}

  lemma ReplaceKeeps<E(!new)>(hs: Hashes<E>, table: seq<E>, garbage: seq<bool>, blank: E, i: nat, e: E)
    requires |table| > 0 && i < |table| && Home(hs, |table|, i, e)
    requires Placed(hs, table, garbage, blank) && HeldOnce(hs, table, blank) && NotHeld(hs, table, e, blank)
    ensures Placed(hs, table[i := e], garbage[i := false], blank)
    ensures Placed(hs, table[i := e], garbage, blank)
    ensures HeldOnce(hs, table[i := e], blank)
  {
    var t := table[i := e];
    forall k | 0 <= k < |t| && k != i && Home(hs, |t|, k, t[k]) && t[k] == e ensures e == blank {
      assert Has(hs, table, e);
    }
  }

  /** What is thrown out is not held any more. */
  lemma ReplacedIsGone<E(!new)>(hs: Hashes<E>, table: seq<E>, garbage: seq<bool>, blank: E, i: nat, e: E)
    requires |table| > 0 && i < |table| && Home(hs, |table|, i, e)
    requires Placed(hs, table, garbage, blank) && HeldOnce(hs, table, blank) && NotHeld(hs, table, e, blank)
    ensures NotHeld(hs, table[i := e], table[i], blank)
  {
    var t, x := table[i := e], table[i];
    forall k | 0 <= k < |t| && Home(hs, |t|, k, x) && t[k] == x ensures x == blank {
      if k == i {
        assert table[i] == e && Has(hs, table, e);
      } else {
        assert table[k] == table[i];
      }
    }
  }

  lemma ReplaceFinds<E(!new)>(hs: Hashes<E>, table: seq<E>, i: nat, e: E, x: E)
    requires |table| > 0 && i < |table| && Home(hs, |table|, i, e)
    ensures Has(hs, table[i := e], x) ==> Has(hs, table, x) || x == e
    ensures x == e || (Has(hs, table, x) && x != table[i]) ==> Has(hs, table[i := e], x)
    ensures Has(hs, table, x) ==> Has(hs, table[i := e], x) || x == table[i]
  {
    var t := table[i := e];
    if Has(hs, t, x) {
      var k :| 0 <= k < |t| && Home(hs, |t|, k, x) && t[k] == x;
      assert k != i ==> table[k] == x;
    }
    if Has(hs, table, x) {
      var k :| 0 <= k < |table| && Home(hs, |table|, k, x) && table[k] == x;
      assert k != i ==> t[k] == x;
    }
    if x == e {
      assert t[i] == x;
    }
  }

  /** Swapping with an element that is at home exchanges it for the one in hand. */
  lemma SwapContents<E(!new)>(hs: Hashes<E>, table: seq<E>, i: nat, e: E)
    requires |table| > 0 && i < |table| && Home(hs, |table|, i, e) && Home(hs, |table|, i, table[i])
    ensures SameContents(hs, table, e, table[i := e], table[i])
  {
    var t, e' := table[i := e], table[i];
    ReplaceMultiset(table, i, e);
    forall x ensures Has(hs, t, x) || x == e' <==> Has(hs, table, x) || x == e {
      ReplaceFinds(hs, table, i, e, x);
      assert Has(hs, table, e');
    }
    assert multiset(t) + multiset{e'} == multiset(table) + multiset{e};
    assert SameContents(hs, table, e, t, e');
  }

  lemma SameContentsTwice<E(!new)>(hs: Hashes<E>, t0: seq<E>, e0: E, t1: seq<E>, e1: E, t2: seq<E>, e2: E)
    requires |t0| == |t1| == |t2| > 0
    requires SameContents(hs, t0, e0, t1, e1) && SameContents(hs, t1, e1, t2, e2)
    ensures SameContents(hs, t0, e0, t2, e2)
  {
    forall x ensures Has(hs, t2, x) || x == e2 <==> Has(hs, t0, x) || x == e0 {
      assert Has(hs, t1, x) || x == e1 <==> Has(hs, t0, x) || x == e0;
    }
  }

  /** Inserting e into table lost exactly one element and nothing else. */
  ghost predicate LostOne<E(!new)>(hs: Hashes<E>, table: seq<E>, e: E, table': seq<E>, lost: E, blank: E)
    requires |table| == |table'| > 0
  {
    && multiset(table') + multiset{lost} == multiset(table) + multiset{e}
    && (forall x :: x != lost ==> (Has(hs, table', x) <==> Has(hs, table, x) || x == e))
    && NotHeld(hs, table', lost, blank)
  }

  lemma LostByOverwriting<E(!new)>(hs: Hashes<E>, t0: seq<E>, e0: E, t: seq<E>, e: E, garbage: seq<bool>, blank: E,
                                   i: nat)
    requires |t0| == |t| > 0 && i < |t| && Home(hs, |t|, i, e)
    requires SameContents(hs, t0, e0, t, e)
    requires Placed(hs, t, garbage, blank) && HeldOnce(hs, t, blank) && NotHeld(hs, t, e, blank)
    ensures LostOne(hs, t0, e0, t[i := e], t[i], blank)
  {
    var t', lost := t[i := e], t[i];
    ReplaceMultiset(t, i, e);
    ReplacedIsGone(hs, t, garbage, blank, i, e);
    forall x | x != lost ensures Has(hs, t', x) <==> Has(hs, t0, x) || x == e0 {
      ReplaceFinds(hs, t, i, e, x);
      assert Has(hs, t, x) || x == e <==> Has(hs, t0, x) || x == e0;
    }
    assert LostOne(hs, t0, e0, t', lost, blank);
  }

  lemma LostByDisplacement<E(!new)>(hs: Hashes<E>, t0: seq<E>, e0: E, t: seq<E>, e: E, blank: E)
    requires |t0| == |t| > 0
    requires SameContents(hs, t0, e0, t, e) && NotHeld(hs, t, e, blank)
    ensures LostOne(hs, t0, e0, t, e, blank)
  {
    forall x | x != e ensures Has(hs, t, x) <==> Has(hs, t0, x) || x == e0 {
      assert Has(hs, t, x) || x == e <==> Has(hs, t0, x) || x == e0;
    }
  }

  // ----- Counting the live entries of the current epoch -----

  ghost function Live(epoch: seq<bool>, garbage: seq<bool>): nat
    requires |epoch| == |garbage|
  {
    if epoch == [] then 0
    else Live(epoch[1..], garbage[1..]) + if epoch[0] && !garbage[0] then 1 else 0
  }

  ghost function One(b: bool): nat { if b then 1 else 0 }

  lemma {:induction false} LiveSet(epoch: seq<bool>, garbage: seq<bool>, i: nat, b: bool, g: bool)
    requires |epoch| == |garbage| && i < |epoch|
    ensures Live(epoch[i := b], garbage[i := g]) + One(epoch[i] && !garbage[i]) == Live(epoch, garbage) + One(b && !g)
    decreases |epoch|
  {
    if i > 0 {
      LiveSet(epoch[1..], garbage[1..], i - 1, b, g);
      assert epoch[i := b][1..] == epoch[1..][i - 1 := b];
      assert garbage[i := g][1..] == garbage[1..][i - 1 := g];
    }
  }

  lemma {:induction false} LivePrefix(epoch: seq<bool>, garbage: seq<bool>, i: nat)
    requires |epoch| == |garbage| && i < |epoch|
    ensures Live(epoch[..i + 1], garbage[..i + 1]) == Live(epoch[..i], garbage[..i]) + One(epoch[i] && !garbage[i])
  {
    if i > 0 {
      LivePrefix(epoch[1..], garbage[1..], i - 1);
      assert epoch[..i + 1][1..] == epoch[1..][..i] && garbage[..i + 1][1..] == garbage[1..][..i];
      assert epoch[..i][1..] == epoch[1..][..i - 1] && garbage[..i][1..] == garbage[1..][..i - 1];
    }
  }

  lemma {:induction false} NoneLive(epoch: seq<bool>, garbage: seq<bool>)
    requires |epoch| == |garbage| && forall i :: 0 <= i < |epoch| ==> !epoch[i] || garbage[i]
    ensures Live(epoch, garbage) == 0
  {
    if epoch != [] {
      NoneLive(epoch[1..], garbage[1..]);
    }
  }

  // ----- The cache -----

  function Max(a: nat, b: nat): nat { if a < b then b else a }

  /** 45% of the slots, in 32-bit arithmetic (src/cuckoocache.h:349). */
  function EpochSize(size: nat): nat {
    Max(1, 45 * size % 0x1_0000_0000 / 100)
  }

  /** The 32-bit product wraps around for large caches: an epoch is 45% of the slots
      exactly up to a size of (2^32 - 1) / 45. */
  lemma EpochSizeExact(size: nat)
    ensures EpochSize(size) == Max(1, 45 * size / 100) <==> size <= 0xffff_ffff / 45
  {
    var m := 0x1_0000_0000;
    if 45 * size >= m {
      var k, r := 45 * size / m, 45 * size % m;
      assert k >= 1 && 45 * size == k * m + r;
      assert k * m >= m;
      assert 45 * size / 100 >= (m + r) / 100 > r / 100;
    }
  }

  /** How far the live entries of an epoch may exceed the epoch size. */
  function Slack(epochSize: nat): nat { Max(1, epochSize / 16) }

  class Cache<E(==, !new)> {
    const hs: Hashes<E>
    const size: nat
    const collection_flags: BitPackedFlags
    const epoch_size: nat
    const depth_limit: nat
    var table: seq<E>
    var epoch_flags: seq<bool>
    var epoch_heuristic_counter: nat
    /** The value of slots that were never written. */
    ghost const blank: E

    ghost predicate Shaped()
      reads this, collection_flags
    {
      && |table| == |epoch_flags| == size && 0 < size <= INVALID && epoch_size >= 1 && depth_limit >= 1
      && collection_flags.Covers(size)
    }

    ghost function Garbage(): (r: seq<bool>)
      reads this, collection_flags
      requires Shaped()
      ensures |r| == size
    {
      collection_flags.Flags(size)
    }

    ghost predicate Filled()
      reads this, collection_flags
    {
      Shaped() && Placed(hs, table, Garbage(), blank) && HeldOnce(hs, table, blank)
    }

    ghost function LiveCount(): nat
      reads this, collection_flags
      requires Shaped()
    {
      Live(epoch_flags, Garbage())
    }

    /** The invariant: places are right, nothing is held twice, and the cheap counter bounds
        the growth of the current epoch. */
    ghost predicate Valid()
      reads this, collection_flags
    {
      Filled() && LiveCount() + epoch_heuristic_counter <= epoch_size + Slack(epoch_size)
    }

    ghost predicate Contains(e: E)
      reads this, collection_flags
      requires Shaped()
    {
      Has(hs, table, e)
    }

    /** The constructor and setup; the depth limit is log2 of the size, at least one. */
    constructor (hs: Hashes<E>, new_size: nat, depth_limit: nat, dflt: E)
      requires new_size <= INVALID - 7 && depth_limit >= 1
      ensures Valid() && fresh(collection_flags)
      ensures size == Max(2, new_size) && epoch_size == EpochSize(size) && epoch_heuristic_counter == epoch_size
      ensures this.hs == hs && this.depth_limit == depth_limit && blank == dflt
      ensures forall i :: 0 <= i < size ==> table[i] == dflt && Garbage()[i] && !epoch_flags[i]
    {
      var n := Max(2, new_size);
      this.hs := hs;
      this.depth_limit := depth_limit;
      size := n;
      table := seq(n, _ => dflt);
      collection_flags := new BitPackedFlags(n);
      epoch_flags := seq(n, _ => false);
      epoch_size := EpochSize(n);
      epoch_heuristic_counter := EpochSize(n);
      blank := dflt;
      new;
      NoneLive(epoch_flags, Garbage());
    }

    /** The counting loop of epoch_check. */
    method CountLive() returns (n: nat)
      requires Shaped()
      ensures n == LiveCount()
    {
      n := 0;
      for i := 0 to size
        invariant n == Live(epoch_flags[..i], Garbage()[..i])
      {
        LivePrefix(epoch_flags, Garbage(), i);
        if epoch_flags[i] && !collection_flags.BitIsSet(i) {
          n := n + 1;
        }
      }
      assert epoch_flags[..size] == epoch_flags && Garbage()[..size] == Garbage();
    }

    /** The aging loop of epoch_check: old entries become garbage, current ones old. */
    method Age()
      requires Shaped()
      modifies `epoch_flags, collection_flags
      ensures Shaped()
      ensures forall i :: 0 <= i < size ==>
                !epoch_flags[i] && Garbage()[i] == (old(Garbage()[i]) || !old(epoch_flags)[i])
    {
      for i := 0 to size
        modifies `epoch_flags, collection_flags
        invariant Shaped()
        invariant forall j :: 0 <= j < i ==>
                    !epoch_flags[j] && Garbage()[j] == (old(Garbage()[j]) || !old(epoch_flags)[j])
        invariant forall j :: i <= j < size ==>
                    epoch_flags[j] == old(epoch_flags)[j] && Garbage()[j] == old(Garbage()[j])
      {
        if epoch_flags[i] {
          epoch_flags := epoch_flags[i := false];
        } else {
          collection_flags.BitSet(i, size);
        }
      }
    }

    /** The epochs age when the count is due and finds the current one full. */
    ghost predicate AgingDue()
      reads this, collection_flags
      requires Shaped()
    {
      epoch_heuristic_counter == 0 && LiveCount() >= epoch_size
    }

    /** The garbage flags after epoch_check: aging adds everything not of the current epoch. */
    ghost function AgedGarbage(): (r: seq<bool>)
      reads this, collection_flags
      requires Shaped()
      ensures |r| == size
    {
      if AgingDue() then Either(Garbage(), epoch_flags) else Garbage()
    }

    /** The epoch flags after epoch_check: aging starts a new epoch. */
    ghost function AgedEpochs(): (r: seq<bool>)
      reads this, collection_flags
      requires Shaped()
      ensures |r| == size
    {
      if AgingDue() then seq(size, _ => false) else epoch_flags
    }

    /** The next scan is due after as many inserts as the epoch has room for, but not before a
        sixteenth of an epoch and not at once. */
    ghost predicate IsNextCount(n: nat, live: nat) {
      && n >= 1 && 16 * n + 15 >= epoch_size && live + n >= epoch_size
      && (n == 1 || 16 * n <= epoch_size || live + n == epoch_size)
    }

    /** epoch_check. The epochs age exactly if the count is due and finds the epoch full. */
    method EpochCheck()
      requires Valid()
      modifies this, collection_flags
      ensures Filled() && table == old(table)
      ensures epoch_flags == old(AgedEpochs()) && Garbage() == old(AgedGarbage())
      ensures LiveCount() + 1 + epoch_heuristic_counter <= epoch_size + Slack(epoch_size)
      ensures old(epoch_heuristic_counter) > 0 ==> epoch_heuristic_counter == old(epoch_heuristic_counter) - 1
      ensures old(AgingDue()) ==> epoch_heuristic_counter == epoch_size
      ensures old(epoch_heuristic_counter) == 0 && !old(AgingDue()) ==>
                IsNextCount(epoch_heuristic_counter, LiveCount())
    {
      if epoch_heuristic_counter != 0 {
        epoch_heuristic_counter := epoch_heuristic_counter - 1;
        return;
      }
      var epoch_unused_count := CountLive();
      if epoch_unused_count >= epoch_size {
        Age();
        NoneLive(epoch_flags, Garbage());
        assert epoch_flags == old(AgedEpochs()) && Garbage() == old(AgedGarbage());
        epoch_heuristic_counter := epoch_size;
      } else {
        epoch_heuristic_counter := Max(1, Max(epoch_size / 16, epoch_size - epoch_unused_count));
      }
    }

    /** The search loop of contains and insert. */
    method FindPlace(e: E) returns (found: bool, loc: nat)
      requires Shaped()
      ensures found <==> Contains(e)
      ensures found ==> loc < size && table[loc] == e && Home(hs, size, loc, e)
    {
      var locs := ComputeHashes(hs, size, e);
      for k := 0 to 8
        invariant forall j :: 0 <= j < k ==> table[locs[j]] != e
      {
        if table[locs[k]] == e {
          return true, locs[k];
        }
      }
      found, loc := false, 0;
    }

    method ContainsElement(e: E, erase: bool) returns (found: bool)
      requires Valid()
      modifies collection_flags
      ensures Valid() && table == old(table)
      ensures found <==> Contains(e)
      ensures if found && erase
              then exists loc :: 0 <= loc < size && table[loc] == e && Garbage() == old(Garbage())[loc := true]
              else Garbage() == old(Garbage())
    {
      var loc;
      found, loc := FindPlace(e);
      if found && erase {
        LiveSet(epoch_flags, Garbage(), loc, epoch_flags[loc], true);
        assert epoch_flags[loc := epoch_flags[loc]] == epoch_flags;
        collection_flags.BitSet(loc, size);
      }
    }

    /** The first of the places that may be overwritten. */
    method FindGarbage(locs: seq<nat>) returns (found: bool, loc: nat)
      requires Shaped() && |locs| == 8 && forall j :: 0 <= j < 8 ==> locs[j] < size
      ensures found ==> loc in locs && Garbage()[loc]
      ensures found ==> IsFirstFree(Garbage(), locs, loc)
      ensures !found ==> NoneFree(Garbage(), locs)
    {
      for k := 0 to 8
        invariant forall j :: 0 <= j < k ==> !Garbage()[locs[j]]
      {
        if collection_flags.BitIsSet(locs[k]) {
          return true, locs[k];
        }
      }
      found, loc := false, 0;
    }

    /** The place after the one used last, or the second one to begin with. */
    static method NextPlace(locs: seq<nat>, last_loc: nat) returns (loc: nat)
      requires |locs| == 8
      ensures loc == NextOf(locs, last_loc)
    {
      var k := 0;
      while k < 8 && locs[k] != last_loc
        invariant 0 <= k <= 8 && IndexOf(locs, last_loc) == k + IndexOf(locs[k..], last_loc)
      {
        assert locs[k..][1..] == locs[k + 1..];
        k := k + 1;
      }
      loc := locs[(1 + k) % 8];
    }

    /** Write an element into a place that may be overwritten, and keep it there. */
    method Store(loc: nat, e: E, epoch: bool)
      requires Filled() && loc < size && Home(hs, size, loc, e)
      requires table[loc] == e || (Garbage()[loc] && NotHeld(hs, table, e, blank))
      modifies this, collection_flags
      ensures Filled() && table == old(table)[loc := e]
      ensures epoch_heuristic_counter == old(epoch_heuristic_counter)
      ensures Garbage() == old(Garbage())[loc := false] && epoch_flags == old(epoch_flags)[loc := epoch]
      ensures LiveCount() <= old(LiveCount()) + One(epoch)
    {
      if table[loc] != e {
        ReplaceKeeps(hs, table, Garbage(), blank, loc, e);
      } else {
        assert table[loc := e] == table;
      }
      LiveSet(epoch_flags, Garbage(), loc, epoch, false);
      table := table[loc := e];
      collection_flags.BitUnset(loc, size);
      epoch_flags := epoch_flags[loc := epoch];
    }

    /** One displacement: exchange the element in hand for the one in a place that is not to
        be overwritten, together with their epoch flags. */
    method Displace(loc: nat, e: E, epoch: bool) returns (e': E, epoch': bool)
      requires Filled() && loc < size && Home(hs, size, loc, e) && !Garbage()[loc] && NotHeld(hs, table, e, blank)
      modifies `table, `epoch_flags
      ensures Filled() && NotHeld(hs, table, e', blank)
      ensures table == old(table)[loc := e] && e' == old(table)[loc]
      ensures epoch_flags == old(epoch_flags)[loc := epoch] && epoch' == old(epoch_flags)[loc]
      ensures SameContents(hs, old(table), e, table, e')
      ensures LiveCount() + One(epoch') == old(LiveCount()) + One(epoch)
    {
      ReplaceKeeps(hs, table, Garbage(), blank, loc, e);
      ReplacedIsGone(hs, table, Garbage(), blank, loc, e);
      SwapContents(hs, table, loc, e);
      LiveSet(epoch_flags, Garbage(), loc, epoch, false);
      assert Garbage()[loc := false] == Garbage();
      e' := table[loc];
      table := table[loc := e];
      epoch' := epoch_flags[loc];
      epoch_flags := epoch_flags[loc := epoch];
    }

    /** insert. An element that is present is only refreshed. An absent one is stored at the
        price of exactly one lost element: the content of a slot that was garbage after the
        epoch check, or, when the depth limit is exhausted, the element displaced last. Table
        and epoch flags are what the displacements along path leave. */
    method Insert(e0: E) returns (ghost lost: E, ghost exhausted: bool, ghost path: seq<nat>)
      requires Valid()
      modifies this, collection_flags
      ensures Valid()
      ensures old(Contains(e0)) ==> table == old(table)
      ensures old(Contains(e0)) ==>
                (exists loc :: 0 <= loc < size && table[loc] == e0 && Garbage() == old(AgedGarbage())[loc := false]
                               && epoch_flags == old(AgedEpochs())[loc := true])
      ensures !old(Contains(e0)) ==> LostOne(hs, old(table), e0, table, lost, blank)
      ensures !old(Contains(e0)) && !exhausted ==>
                exists i :: 0 <= i < size && lost == old(table)[i] && old(AgedGarbage())[i]
      ensures !old(Contains(e0)) ==> IsPath(hs, size, old(AgedGarbage()), old(table), e0, path)
      ensures !old(Contains(e0)) && exhausted ==>
                && |path| == depth_limit && (table, lost) == Displaced(size, old(table), e0, path)
                && Garbage() == old(AgedGarbage())
                && epoch_flags == Displaced(size, old(AgedEpochs()), true, path).0
      ensures !old(Contains(e0)) && !exhausted ==>
                && |path| < depth_limit
                && exists loc :: StoredAfter(hs, size, old(AgedGarbage()), old(table), e0, old(AgedEpochs()), path, loc,
                                             table, lost, epoch_flags, Garbage())
    {
      hide Has, Home, Placed, HeldOnce, NotHeld, LostOne, IsPath, Displaced, StoredAfter, ComputeHashes;
      EpochCheck();
      lost, exhausted, path := e0, false, [];
      var found, loc := FindPlace(e0);
      if found {
        assert table[loc := e0] == table;
        Store(loc, e0, true);
      } else {
        lost, exhausted, path := InsertAbsent(e0);
      }
    }

    /** The displacement loop. */
    method InsertAbsent(e0: E) returns (ghost lost: E, ghost exhausted: bool, ghost path: seq<nat>)
      requires Filled() && !Contains(e0)
      requires LiveCount() + 1 + epoch_heuristic_counter <= epoch_size + Slack(epoch_size)
      modifies this, collection_flags
      ensures Valid() && LostOne(hs, old(table), e0, table, lost, blank)
      ensures !exhausted ==> exists i :: 0 <= i < size && lost == old(table)[i] && old(Garbage()[i])
      ensures IsPath(hs, size, old(Garbage()), old(table), e0, path)
      ensures exhausted ==>
                && |path| == depth_limit && (table, lost) == Displaced(size, old(table), e0, path)
                && Garbage() == old(Garbage()) && epoch_flags == Displaced(size, old(epoch_flags), true, path).0
      ensures !exhausted ==>
                && |path| < depth_limit
                && exists loc :: StoredAfter(hs, size, old(Garbage()), old(table), e0, old(epoch_flags), path, loc,
                                             table, lost, epoch_flags, Garbage())
    {
      hide Has, Home, Placed, HeldOnce, NotHeld, SameContents, LostOne, IsPath, Displaced, StoredAfter, IsFirstFree,
           NoneFree, ComputeHashes, NextOf;
      lost, exhausted, path := e0, false, [];
      var last_loc, last_epoch := INVALID, true;
      AbsentNotHeld(hs, table, e0, blank);
      ghost var t0, g0, f0, live0, counter0 := table, Garbage(), epoch_flags, LiveCount(), epoch_heuristic_counter;
      SameContentsRefl(hs, t0, e0);
      PathStart(hs, size, g0, t0, e0);
      DisplacedStart(size, t0, e0);
      DisplacedStart(size, f0, true);
      var e := e0;
      var locs := ComputeHashes(hs, size, e);
      for depth := 0 to depth_limit
        modifies this, collection_flags
        invariant Filled() && NotHeld(hs, table, e, blank) && locs == ComputeHashes(hs, size, e)
        invariant SameContents(hs, t0, e0, table, e)
        invariant Garbage() == g0 && forall i :: 0 <= i < size && g0[i] ==> table[i] == t0[i]
        invariant epoch_heuristic_counter == counter0 && LiveCount() + One(last_epoch) <= live0 + 1
        invariant |path| == depth && IsPath(hs, size, g0, t0, e0, path) && Displaced(size, t0, e0, path) == (table, e)
        invariant Displaced(size, f0, true, path) == (epoch_flags, last_epoch)
        invariant last_loc == LastOf(path)
      {
        var found, loc := FindGarbage(locs);
        if found {
          HomeIs(hs, size, loc, e);
          lost := table[loc];
          FilledParts();
          LostByOverwriting(hs, t0, e0, table, e, Garbage(), blank, loc);
          StoredNow(hs, size, g0, t0, e0, f0, path, table, e, epoch_flags, last_epoch, loc);
          Store(loc, e, last_epoch);
          return;
        }
        last_loc := NextPlace(locs, last_loc);
        HomeIs(hs, size, last_loc, e);
        ghost var t1, e1 := table, e;
        PathNext(hs, size, g0, t0, e0, path, table, e, last_loc);
        DisplacedNext(size, t0, e0, path, last_loc);
        DisplacedNext(size, f0, true, path, last_loc);
        path := path + [last_loc];
        e, last_epoch := Displace(last_loc, e, last_epoch);
        SameContentsTwice(hs, t0, e0, t1, e1, table, e);
        locs := ComputeHashes(hs, size, e);
      }
      lost, exhausted := e, true;
      LostByDisplacement(hs, t0, e0, table, e, blank);
    }

    lemma FilledParts()
      requires Filled()
      ensures Placed(hs, table, Garbage(), blank) && HeldOnce(hs, table, blank)
    {}
  }

  // ----- The path of displacements -----

  /** The table and the element in hand after displacing along the path. */
  ghost function Displaced<E>(size: nat, table: seq<E>, e: E, path: seq<nat>): (r: (seq<E>, E))
    requires |table| == size
    ensures |r.0| == size
  {
    if path == [] then (table, e)
    else
      var n := |path| - 1;
      var (t, x) := Displaced(size, table, e, path[..n]);
      if path[n] < size then (t[path[n] := x], t[path[n]]) else (t, x)
  }

  /** The first position of x in s, or the length. */
  ghost function IndexOf(s: seq<nat>, x: nat): (k: nat)
    ensures k <= |s| && (k < |s| ==> s[k] == x) && x !in s[..k]
  {
    if s == [] || s[0] == x then 0 else 1 + IndexOf(s[1..], x)
  }

  /** The place after the one used last, going round; the second one to begin with. */
  ghost function NextOf(locs: seq<nat>, last: nat): (r: nat)
    requires |locs| == 8
    ensures r in locs
  {
    locs[(1 + IndexOf(locs, last)) % 8]
  }

  ghost function LastOf(path: seq<nat>): nat {
    if path == [] then INVALID else path[|path| - 1]
  }

  ghost function Either(garbage: seq<bool>, epochs: seq<bool>): (r: seq<bool>)
    requires |garbage| == |epochs|
    ensures |r| == |garbage|
  {
    seq(|garbage|, i requires 0 <= i < |garbage| => garbage[i] || !epochs[i])
  }

  ghost predicate NoneFree(garbage: seq<bool>, locs: seq<nat>) {
    forall j :: 0 <= j < |locs| ==> locs[j] < |garbage| && !garbage[locs[j]]
  }

  /** The first of the places that is garbage. */
  ghost predicate IsFirstFree(garbage: seq<bool>, locs: seq<nat>, loc: nat) {
    loc < |garbage| && garbage[loc] && exists k :: 0 <= k < |locs| && locs[k] == loc && NoneFree(garbage, locs[..k])
  }

  /** Every step is taken because none of the eight places of the element then in hand is
      garbage, and goes to the place after the one used last. */
  ghost predicate IsPath<E>(hs: Hashes<E>, size: nat, garbage: seq<bool>, table: seq<E>, e: E, path: seq<nat>)
    requires size > 0 && |table| == size
  {
    forall k :: 0 <= k < |path| ==> IsStep(hs, size, garbage, table, e, path, k)
  }

  ghost predicate IsStep<E>(hs: Hashes<E>, size: nat, garbage: seq<bool>, table: seq<E>, e: E, path: seq<nat>, k: nat)
    requires size > 0 && |table| == size && k < |path|
  {
    var locs := ComputeHashes(hs, size, Displaced(size, table, e, path[..k]).1);
    path[k] < size && NoneFree(garbage, locs) && path[k] == NextOf(locs, LastOf(path[..k]))
  }

  /** The element in hand at the end of the path was stored with its epoch flag in the first of
      its places that was garbage, which is garbage no more; lost was there. */
  ghost predicate StoredAfter<E>(hs: Hashes<E>, size: nat, garbage: seq<bool>, table: seq<E>, e: E, epochs: seq<bool>,
                                 path: seq<nat>, loc: nat, table': seq<E>, lost: E, epochs': seq<bool>,
                                 garbage': seq<bool>)
    requires size > 0 && |table| == |epochs| == size
  {
    var (t, x) := Displaced(size, table, e, path);
    var (f, b) := Displaced(size, epochs, true, path);
    && IsFirstFree(garbage, ComputeHashes(hs, size, x), loc) && loc < size
    && table' == t[loc := x] && lost == t[loc] && epochs' == f[loc := b] && garbage' == garbage[loc := false]
  }

  lemma PathStart<E>(hs: Hashes<E>, size: nat, garbage: seq<bool>, table: seq<E>, e: E)
    requires size > 0 && |table| == size
    ensures IsPath(hs, size, garbage, table, e, [])
  {
  }

  lemma DisplacedStart<E>(size: nat, table: seq<E>, e: E)
    requires |table| == size
    ensures Displaced(size, table, e, []) == (table, e)
  {
  }

  lemma DisplacedNext<E>(size: nat, table: seq<E>, e: E, path: seq<nat>, loc: nat)
    requires |table| == size && loc < size
    ensures var (t, x) := Displaced(size, table, e, path);
            Displaced(size, table, e, path + [loc]) == (t[loc := x], t[loc])
  {
    assert (path + [loc])[..|path|] == path;
  }

  lemma PathNext<E>(hs: Hashes<E>, size: nat, garbage: seq<bool>, table: seq<E>, e: E, path: seq<nat>, t: seq<E>, x: E,
                    loc: nat)
    requires size > 0 && |table| == size && IsPath(hs, size, garbage, table, e, path)
    requires Displaced(size, table, e, path) == (t, x) && NoneFree(garbage, ComputeHashes(hs, size, x))
    requires loc < size && loc == NextOf(ComputeHashes(hs, size, x), LastOf(path))
    ensures IsPath(hs, size, garbage, table, e, path + [loc])
  {
    hide ComputeHashes, NextOf, NoneFree, Displaced;
    var p := path + [loc];
    assert p[..|path|] == path;
    forall k | 0 <= k < |p| ensures IsStep(hs, size, garbage, table, e, p, k) {
      if k < |path| {
        assert p[..k] == path[..k];
        assert IsStep(hs, size, garbage, table, e, path, k);
      }
    }
  }

  lemma StoredNow<E>(hs: Hashes<E>, size: nat, garbage: seq<bool>, table: seq<E>, e: E, epochs: seq<bool>,
                     path: seq<nat>, t: seq<E>, x: E, f: seq<bool>, b: bool, loc: nat)
    requires size > 0 && |table| == |epochs| == size && |garbage| == size
    requires Displaced(size, table, e, path) == (t, x) && Displaced(size, epochs, true, path) == (f, b)
    requires loc < size && IsFirstFree(garbage, ComputeHashes(hs, size, x), loc)
    ensures StoredAfter(hs, size, garbage, table, e, epochs, path, loc, t[loc := x], t[loc], f[loc := b],
                        garbage[loc := false])
  {
  }

  lemma HomeIs<E>(hs: Hashes<E>, size: nat, i: nat, e: E)
    requires size > 0 && i in ComputeHashes(hs, size, e)
    ensures Home(hs, size, i, e)
  {}

  lemma AbsentNotHeld<E>(hs: Hashes<E>, table: seq<E>, e: E, blank: E)
    requires |table| > 0
    ensures !Has(hs, table, e) ==> NotHeld(hs, table, e, blank)
  {}

  lemma SameContentsRefl<E(!new)>(hs: Hashes<E>, table: seq<E>, e: E)
    requires |table| > 0
    ensures SameContents(hs, table, e, table, e)
  {}

  // ----- Runs -----

  datatype Op<E> = OpInsert(e: E) | OpContains(e: E, erase: bool)

  /** Over every run of insert and contains, the live entries of the current epoch stay within
      the epoch size plus a sixteenth of it (at least one). */
  method Run<E(==, !new)>(c: Cache<E>, ops: seq<Op<E>>)
    requires c.Valid()
    modifies c, c.collection_flags
    ensures c.Valid() && c.LiveCount() <= c.epoch_size + Slack(c.epoch_size)
  {
    for i := 0 to |ops|
      invariant c.Valid()
    {
      match ops[i]
      case OpInsert(e) => ghost var lost, exhausted, path := c.Insert(e);
      case OpContains(e, erase) => var _ := c.ContainsElement(e, erase);
    }
  }

  /** Erasing is lazy (src/cuckoocache.h:448-454): an erased element is still found. */
  method ErasedIsStillFound<E(==, !new)>(c: Cache<E>, e: E) returns (erased: bool, found: bool)
    requires c.Valid() && c.Contains(e)
    modifies c.collection_flags
    ensures c.Valid() && erased && found
  {
    erased := c.ContainsElement(e, true);
    found := c.ContainsElement(e, false);
  }
}
