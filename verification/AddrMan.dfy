/** CAddrMan (src/addrman.cpp, src/addrman.h): the stochastic address manager. The class
    keeps the source's redundant indexes; its ghost book is the address book they stand
    for. Random choices, the clock and the secret key are parameters. */
module AddrMan {
  import opened Powers
  import opened T = AddrTables

  const HORIZON_DAYS: nat := 30
  const RETRIES: nat := 3
  const MAX_FAILURES: nat := 10
  const MIN_FAIL_DAYS: nat := 7
  const GETADDR_MAX_PCT: nat := 23
  const GETADDR_MAX: nat := 2500

  /** CAddress: an announced address. */
  datatype Address = Address(service: Service, nServices: bv64, nTime: nat)

  function ToUint32(x: int): nat { x % 0x1_0000_0000 }

  function Max0(x: int): int { if x < 0 then 0 else x }

  predicate IsTerrible(s: Stats, now: int) {
    if s.nLastTry != 0 && s.nLastTry >= now - 60 then false
    else if s.nTime > now + 10 * 60 then true
    else if s.nTime == 0 || now - s.nTime > HORIZON_DAYS * 24 * 60 * 60 then true
    else if s.nLastSuccess == 0 && s.nAttempts >= RETRIES then true
    else now - s.nLastSuccess > MIN_FAIL_DAYS * 24 * 60 * 60 && s.nAttempts >= MAX_FAILURES
  }

  /** An hour for an address that seems to be online, otherwise a day. */
  function UpdateInterval(announced: nat, now: int): (r: nat)
    ensures r == 3600 || r == 86_400
    ensures r == 3600 <==> now < announced + 86_400
  {
    if now - announced < 24 * 60 * 60 then 60 * 60 else 24 * 60 * 60
  }

  /** The time of a known address after it is announced again: a small difference is ignored,
      and a time that was set moves forward only, by more than the interval. */
  function RefreshedTime(nTime: nat, announced: nat, penalty: int, now: int): (r: nat)
    ensures announced == 0 || (nTime != 0 && nTime >= announced - UpdateInterval(announced, now) - penalty) ==>
              r == nTime
    ensures announced < 0x1_0000_0000 && penalty >= 0 ==> r <= nTime || r <= announced
    ensures announced < 0x1_0000_0000 && penalty >= 0 && r != nTime && nTime != 0 ==>
              nTime + UpdateInterval(announced, now) < r == announced - penalty
  {
    if announced != 0 && (nTime == 0 || nTime < announced - UpdateInterval(announced, now) - penalty)
    then ToUint32(Max0(announced - penalty)) else nTime
  }

  function MergedServices(a: bv64, b: bv64): bv64 { a | b }

  /** The statistics of a known address after it is announced again. */
  function Refreshed(s: Stats, addr: Address, penalty: int, now: int): (r: Stats)
    ensures r.service == s.service && r.source == s.source
  {
    s.(nTime := RefreshedTime(s.nTime, addr.nTime, penalty, now),
       nServices := MergedServices(s.nServices, addr.nServices))
  }

  // ----- The operations on the abstract book -----

  ghost function SlotsOf(b: Book, a: NetAddr): set<Slot> {
    set s | s in b.newTable && b.newTable[s] == a
  }

  /** File address a in the "new" slot that its source selects. An occupant stays unless
      it is terrible, or has other slots while a has none; an address left with no slot at
      all is forgotten. */
  ghost function FileNew(h: Hashes, key: nat, b: Book, a: NetAddr, source: NetAddr, now: int): Book
    requires a in b.entries
  {
    var slot := NewSlot(h, key, b.entries[a].service, source);
    if slot !in b.newTable then b.(newTable := b.newTable[slot := a])
    else
      var occupant := b.newTable[slot];
      if occupant == a then b
      else if occupant in b.entries
              && (IsTerrible(b.entries[occupant], now)
                  || (|SlotsOf(b, occupant)| > 1 && SlotsOf(b, a) == {})) then
        var u := Unfile(b, slot);
        u.(newTable := u.newTable[slot := a])
      else if SlotsOf(b, a) == {} then b.(entries := b.entries - {a})
      else b
  }

  ghost predicate CanMultiply(b: Book, a: NetAddr, addr: Address, random: nat)
    requires a in b.entries
  {
    && addr.nTime != 0 && (b.entries[a].nTime == 0 || addr.nTime > b.entries[a].nTime)
    && a !in b.triedTable.Values
    && |SlotsOf(b, a)| != NEW_BUCKETS_PER_ADDRESS
    && random % Pow2(|SlotsOf(b, a)|) == 0
  }

  function NewStats(addr: Address, source: NetAddr, penalty: int): Stats {
    Stats(addr.service, addr.nServices, ToUint32(Max0(addr.nTime - penalty)), source, 0, 0, 0, 0)
  }

  ghost function AddToBook(h: Hashes, key: nat, b: Book, addr: Address, source: NetAddr, timePenalty: int,
                           now: int, random: nat): Book
  {
    var a := addr.service.net;
    var penalty := if a == source then 0 else timePenalty;
    if !h.routable(a) then b
    else if a in b.entries then
      var b1 := b.(entries := b.entries[a := Refreshed(b.entries[a], addr, penalty, now)]);
      if CanMultiply(b1, a, addr, random) then FileNew(h, key, b1, a, source, now) else b1
    else
      FileNew(h, key, b.(entries := b.entries[a := NewStats(addr, source, penalty)]), a, source, now)
  }

  ghost function GoodInBook(h: Hashes, key: nat, b: Book, s: Service, time: int): Book {
    if s.net !in b.entries || b.entries[s.net].service != s then b
    else
      var stats := b.entries[s.net].(nLastSuccess := time, nLastTry := time, nAttempts := 0);
      var b1 := b.(entries := b.entries[s.net := stats]);
      if s.net in b.triedTable.Values then b1 else Promote(h, key, b1, s.net)
  }

  ghost function AttemptInBook(b: Book, s: Service, fCountFailure: bool, time: int, lastGood: int): Book {
    if s.net !in b.entries || b.entries[s.net].service != s then b
    else
      var stats := b.entries[s.net].(nLastTry := time);
      b.(entries := b.entries[s.net :=
        if fCountFailure && stats.nLastCountAttempt < lastGood
        then stats.(nLastCountAttempt := time, nAttempts := stats.nAttempts + 1) else stats])
  }

  ghost function ServicesInBook(b: Book, s: Service, services: bv64): Book {
    if s.net !in b.entries || b.entries[s.net].service != s then b
    else b.(entries := b.entries[s.net := b.entries[s.net].(nServices := services)])
  }

  ghost function ConnectedInBook(b: Book, s: Service, time: int): Book {
    if s.net !in b.entries || b.entries[s.net].service != s || time - b.entries[s.net].nTime <= 20 * 60 then b
    else b.(entries := b.entries[s.net := b.entries[s.net].(nTime := ToUint32(time))])
  }

  // ----- Linking the book with the tables -----

  lemma SlotsAreHolders(h: Hashes, t: Tables, b: Book, id: int)
    requires IndexOk(t) && NewOk(h, t) && ShowsSlots(t, t.newTable, b.newTable) && id in t.info
    ensures SlotsOf(b, t.info[id].stats.service.net) == Holders(t.newTable, id)
  {
    var a := t.info[id].stats.service.net;
    forall s ensures s in SlotsOf(b, a) <==> s in Holders(t.newTable, id) {
      if s in t.newTable {
        var x := t.newTable[s];
        assert x in t.info && b.newTable[s] == t.info[x].stats.service.net;
      }
    }
  }

  lemma TriedIffListed(h: Hashes, t: Tables, b: Book, id: int)
    requires IndexOk(t) && TriedOk(h, t) && ShowsSlots(t, t.triedTable, b.triedTable) && id in t.info
    ensures t.info[id].fInTried <==> t.info[id].stats.service.net in b.triedTable.Values
  {
    var a := t.info[id].stats.service.net;
    if t.info[id].fInTried {
      var s := TriedSlot(h, t.key, t.info[id].stats.service);
      assert b.triedTable[s] == a;
    } else {
      forall s | s in b.triedTable ensures b.triedTable[s] != a {
        var x := t.triedTable[s];
        assert x in t.info && x != id;
      }
    }
  }

  lemma CountNewKeeps(h: Hashes, t: Tables, delta: int, floating: set<int>, uncounted: int, b: Book)
    requires Almost(h, t, floating, uncounted) && Shows(t, b)
    ensures Almost(h, t.(nNew := t.nNew + delta), floating, uncounted - delta)
    ensures Shows(t.(nNew := t.nNew + delta), b)
  {
    var u := t.(nNew := t.nNew + delta);
    FrameIndex(t, u);
    FrameRandom(t, u);
    FrameNew(h, t, u);
    FrameTried(h, t, u);
    FrameRefs(t, u);
    FrameFiled(t, u, floating);
    FrameSlots(t, u, t.newTable, b.newTable);
    FrameSlots(t, u, t.triedTable, b.triedTable);
  }

  /** Every entry but the given one is as it was, except perhaps for its place in vRandom. */
  ghost predicate OthersSame(was: map<int, AddrInfo>, now: map<int, AddrInfo>, nId: int) {
    forall id :: id in was && id != nId ==>
      && id in now && now[id].stats == was[id].stats
      && now[id].nRefCount == was[id].nRefCount && now[id].fInTried == was[id].fInTried
  }

  lemma OthersSameAfterDelete(was: map<int, AddrInfo>, now: map<int, AddrInfo>, nId: int)
    requires OthersSame(was, now, -1) && -1 !in was
    ensures OthersSame(was, now - {nId}, nId)
  {}

  lemma OthersSameAt(was: map<int, AddrInfo>, now: map<int, AddrInfo>, nId: int, id: int)
    requires OthersSame(was, now, nId) && id in was && id != nId
    ensures id in now && now[id].stats == was[id].stats
    ensures now[id].nRefCount == was[id].nRefCount && now[id].fInTried == was[id].fInTried
  {}

  lemma OthersSameTwice(was: map<int, AddrInfo>, mid: map<int, AddrInfo>, now: map<int, AddrInfo>, nId: int)
    requires OthersSame(was, mid, nId) && OthersSame(mid, now, nId)
    ensures OthersSame(was, now, nId)
  {}

  lemma FloatingFacts(h: Hashes, t: Tables, id: int, floating: set<int>, uncounted: int)
    requires Almost(h, t, floating, uncounted) && id in floating
    ensures RandomOk(t) && -1 !in t.info && id in t.info && !t.info[id].fInTried && t.info[id].nRefCount == 0
    ensures 0 <= t.info[id].nRandomPos < |t.rnd| && t.rnd[t.info[id].nRandomPos] == id
  {}

  lemma ShownSlots(t: Tables, b: Book)
    requires Shows(t, b)
    ensures forall s :: s in b.newTable <==> s in t.newTable
    ensures forall s :: s in b.triedTable <==> s in t.triedTable
    ensures b.entries.Keys == t.addr.Keys
  {}

  lemma FiledFacts(h: Hashes, t: Tables, s: Slot, floating: set<int>, uncounted: int, b: Book)
    requires Almost(h, t, floating, uncounted) && Shows(t, b) && s in t.newTable
    ensures t.newTable[s] in t.info && !t.info[t.newTable[s]].fInTried
    ensures s in b.newTable && b.newTable[s] == t.info[t.newTable[s]].stats.service.net
  {}

  /** The decision of Add_ about the slot, taken on the tables, is the one FileNew takes. */
  lemma FileChoice(h: Hashes, t: Tables, b: Book, nId: int, floating: set<int>, source: NetAddr, now: int)
    requires Almost(h, t, floating, 0) && Shows(t, b) && nId in t.info && floating <= {nId}
    ensures var a, slot := t.info[nId].stats.service.net, NewSlot(h, t.key, t.info[nId].stats.service, source);
            && a in b.entries && b.entries[a] == t.info[nId].stats && nId != -1
            && (slot in t.newTable ==> t.newTable[slot] in t.info && t.newTable[slot] !in floating)
            && (t.info[nId].nRefCount == 0 && !t.info[nId].fInTried ==> nId in floating)
            && FileNew(h, t.key, b, a, source, now) ==
                 if slot in t.newTable && t.newTable[slot] == nId then b
                 else if slot !in t.newTable || IsTerrible(t.info[t.newTable[slot]].stats, now)
                         || (t.info[t.newTable[slot]].nRefCount > 1 && t.info[nId].nRefCount == 0)
                 then Filed(Unfile(b, slot), slot, a)
                 else if t.info[nId].nRefCount == 0 then b.(entries := b.entries - {a})
                 else b
  {
    hide Almost, Shows, Unfile, IsTerrible;
    EntryFacts(h, t, nId, floating, 0, b);
    RefCountShown(h, t, nId, floating, 0, b);
    ShownSlots(t, b);
    var slot := NewSlot(h, t.key, t.info[nId].stats.service, source);
    UnfileEmpty(b, slot);
    FloatingNotFiled(h, t, slot, floating, 0);
    if slot in t.newTable {
      FiledFacts(h, t, slot, floating, 0, b);
      EntryFacts(h, t, t.newTable[slot], floating, 0, b);
      RefCountShown(h, t, t.newTable[slot], floating, 0, b);
    }
  }

  /** An address is filed only in slots whose position its id determines. */
  lemma FiledWhere(h: Hashes, t: Tables, s: Slot, id: int, floating: set<int>, uncounted: int, b: Book)
    requires Almost(h, t, floating, uncounted) && Shows(t, b)
    requires id in t.info && s in b.newTable && b.newTable[s] == t.info[id].stats.service.net
    ensures s in t.newTable && t.newTable[s] == id && s.bucket < NEW_BUCKETS
    ensures s.pos == BucketPosition(h, t.key, true, s.bucket, t.info[id].stats.service)
  {
    var x := t.newTable[s];
    assert x in t.info;
  }

  /** What is left of the "new" table once a is removed from its first buckets. */
  ghost function Kept(table: map<Slot, NetAddr>, a: NetAddr, buckets: nat): map<Slot, NetAddr> {
    map s | s in table && !(s.bucket < buckets && table[s] == a) :: table[s]
  }

  ghost function Filed(b: Book, s: Slot, a: NetAddr): Book {
    b.(newTable := b.newTable[s := a])
  }

  ghost function Without(table: map<Slot, NetAddr>, s: Slot, a: NetAddr): map<Slot, NetAddr> {
    if s in table && table[s] == a then table - {s} else table
  }

  lemma KeptNone(table: map<Slot, NetAddr>, a: NetAddr)
    ensures Kept(table, a, 0) == table
  {}

  lemma KeptStep(table: map<Slot, NetAddr>, a: NetAddr, slot: Slot)
    requires forall s :: s in table && table[s] == a && s.bucket == slot.bucket ==> s == slot
    ensures Kept(table, a, slot.bucket + 1) == Without(Kept(table, a, slot.bucket), slot, a)
  {}

  lemma KeptAll(table: map<Slot, NetAddr>, a: NetAddr, buckets: nat)
    requires forall s :: s in table && table[s] == a ==> s.bucket < buckets
    ensures Kept(table, a, buckets) == map s | s in table && table[s] != a :: table[s]
    ensures a !in Kept(table, a, buckets).Values
  {}

  lemma SlotsByBucket(h: Hashes, t: Tables, id: int, b: Book)
    requires Consistent(h, t) && Shows(t, b) && id in t.info
    ensures forall s :: s in b.newTable && b.newTable[s] == t.info[id].stats.service.net ==>
              s.bucket < NEW_BUCKETS &&
                s == Slot(s.bucket, BucketPosition(h, t.key, true, s.bucket, t.info[id].stats.service))
  {
    forall s | s in b.newTable && b.newTable[s] == t.info[id].stats.service.net
      ensures s.bucket < NEW_BUCKETS &&
                s == Slot(s.bucket, BucketPosition(h, t.key, true, s.bucket, t.info[id].stats.service))
    {
      FiledWhere(h, t, s, id, {}, 0, b);
    }
  }

  lemma EntryFacts(h: Hashes, t: Tables, id: int, floating: set<int>, uncounted: int, b: Book)
    requires Almost(h, t, floating, uncounted) && Shows(t, b) && id in t.info
    ensures 0 <= id < t.idCount
    ensures t.info[id].stats.service.net in t.addr && t.addr[t.info[id].stats.service.net] == id
    ensures t.info[id].stats.service.net in b.entries && b.entries[t.info[id].stats.service.net] == t.info[id].stats
    ensures !t.info[id].fInTried && id !in floating ==> 1 <= t.info[id].nRefCount <= NEW_BUCKETS_PER_ADDRESS
    ensures t.info[id].fInTried ==> t.info[id].nRefCount == 0
  {
    if t.info[id].fInTried {
      assert Holders(t.newTable, id) == {};
    }
  }

  lemma NotFiledAt(h: Hashes, t: Tables, s: Slot, id: int, floating: set<int>, uncounted: int, b: Book)
    requires Almost(h, t, floating, uncounted) && Shows(t, b) && id in t.info
    requires s in t.newTable ==> t.newTable[s] != id
    ensures s in b.newTable ==> b.newTable[s] != t.info[id].stats.service.net
  {
    if s in b.newTable && b.newTable[s] == t.info[id].stats.service.net {
      FiledWhere(h, t, s, id, floating, uncounted, b);
    }
  }

  lemma RefCountShown(h: Hashes, t: Tables, id: int, floating: set<int>, uncounted: int, b: Book)
    requires Almost(h, t, floating, uncounted) && Shows(t, b) && id in t.info
    ensures t.info[id].nRefCount == |SlotsOf(b, t.info[id].stats.service.net)|
    ensures t.info[id].nRefCount == 0 <==> t.info[id].stats.service.net !in b.newTable.Values
    ensures t.info[id].fInTried <==> t.info[id].stats.service.net in b.triedTable.Values
  {
    SlotsAreHolders(h, t, b, id);
    NoHolderIffNotFiled(h, t, id, b.newTable);
    TriedIffListed(h, t, b, id);
  }

  lemma TriedFacts(h: Hashes, t: Tables, s: Slot, floating: set<int>, uncounted: int, b: Book)
    requires Almost(h, t, floating, uncounted) && Shows(t, b) && s in t.triedTable
    ensures t.triedTable[s] in t.info && t.info[t.triedTable[s]].fInTried
    ensures s in b.triedTable && b.triedTable[s] == t.info[t.triedTable[s]].stats.service.net
  {}

  lemma FloatingNotFiled(h: Hashes, t: Tables, s: Slot, floating: set<int>, uncounted: int)
    requires Almost(h, t, floating, uncounted)
    ensures s in t.newTable ==> t.newTable[s] !in floating
    ensures forall id :: id in floating ==> id in t.info && id != -1
  {
    if s in t.newTable {
      var id := t.newTable[s];
      assert s in Holders(t.newTable, id);
    }
  }

  ghost predicate FloatingSame(was: map<int, AddrInfo>, now: map<int, AddrInfo>, floating: set<int>) {
    forall id :: id in floating ==> id in was && id in now && now[id].stats == was[id].stats
  }

  lemma FloatingSameTwice(h: Hashes, was: map<int, AddrInfo>, mid: map<int, AddrInfo>, t: Tables,
                          gone: int, taken: int, floating: set<int>)
    requires forall id :: id in floating ==> id in was
    requires gone !in floating
    requires OthersSame(was, mid, gone) && OthersSame(mid, t.info, taken)
    requires taken in was && taken != gone && taken in mid && taken in t.info && t.info[taken].stats == mid[taken].stats
    ensures FloatingSame(was, t.info, floating)
  {}

  lemma IndexFacts(h: Hashes, t: Tables, floating: set<int>, uncounted: int, b: Book)
    requires Almost(h, t, floating, uncounted) && Shows(t, b)
    ensures IndexOk(t) && b.entries.Keys == t.addr.Keys
  {}

  lemma SomeSlot(h: Hashes, t: Tables, id: int, b: Book) returns (s: Slot)
    requires Consistent(h, t) && id in t.info && !t.info[id].fInTried
    ensures s in t.newTable && t.newTable[s] == id && s.bucket < NEW_BUCKETS
    ensures s.pos == BucketPosition(h, t.key, true, s.bucket, t.info[id].stats.service)
  {
    assert |Holders(t.newTable, id)| >= 1;
    assert Holders(t.newTable, id) != {};
    s :| s in Holders(t.newTable, id);
  }

  lemma RotationReaches(b: nat, r: nat, n: nat) returns (m: nat)
    requires b < n
    ensures m < n && (m + r) % n == b
  {
    if r % n <= b {
      m := b - r % n;
      DivModUnique(m + r, n, r / n, b);
    } else {
      m := b + n - r % n;
      assert (r / n + 1) * n == (r / n) * n + n;
      DivModUnique(m + r, n, r / n + 1, b);
    }
  }

  lemma UnfileEmpty(b: Book, s: Slot)
    ensures s !in b.newTable ==> Unfile(b, s) == b
  {}

  lemma OthersSameRefl(was: map<int, AddrInfo>, nId: int)
    ensures OthersSame(was, was, nId)
  {}

  lemma OthersSameMoved(was: map<int, AddrInfo>, id1: int, id2: int, i: int, j: int)
    requires id1 in was && id2 in was
    ensures var info1 := was[id1 := was[id1].(nRandomPos := j)];
            OthersSame(was, info1[id2 := info1[id2].(nRandomPos := i)], -1)
  {}

  lemma EmptyConsistent(h: Hashes, key: nat)
    ensures var t := Tables(key, 0, map[], map[], [], 0, map[], 0, map[]);
            Consistent(h, t) && Shows(t, Book(map[], map[], map[]))
  {}

  // ----- Sampling for getaddr -----

  /** vAddr are the statistics at the listed positions, which are all the positions below
      n that hold a non-terrible entry. */
  ghost predicate Sampled(info: map<int, AddrInfo>, rnd: seq<int>, picked: seq<int>, n: nat, vAddr: seq<Stats>,
                          now: int) {
    && |picked| == |vAddr|
    && (forall i :: 0 <= i < |picked| ==>
          && 0 <= picked[i] < n <= |rnd| && rnd[picked[i]] in info
          && info[rnd[picked[i]]].stats == vAddr[i] && !IsTerrible(vAddr[i], now))
    && (forall i, j :: 0 <= i < j < |picked| ==> picked[i] < picked[j])
    && (forall k :: 0 <= k < n && k < |rnd| && rnd[k] in info && !IsTerrible(info[rnd[k]].stats, now) ==> k in picked)
  }

  lemma SampledNone(info: map<int, AddrInfo>, rnd: seq<int>, now: int)
    ensures Sampled(info, rnd, [], 0, [], now)
  {}

  lemma SampledSwap(t: Tables, picked: seq<int>, n: nat, pos: nat, vAddr: seq<Stats>, now: int)
    requires n <= pos < |t.rnd| && t.rnd[n] in t.info && t.rnd[pos] in t.info
    requires Sampled(t.info, t.rnd, picked, n, vAddr, now)
    ensures var u := T.SwapRandom(t, n, pos); Sampled(u.info, u.rnd, picked, n, vAddr, now)
  {
    var u := T.SwapRandom(t, n, pos);
    assert forall k :: 0 <= k < n ==> u.rnd[k] == t.rnd[k];
    assert forall id :: id in t.info ==> id in u.info && u.info[id].stats == t.info[id].stats;
  }

  lemma SampledStep(info: map<int, AddrInfo>, rnd: seq<int>, picked: seq<int>, n: nat, vAddr: seq<Stats>, now: int)
    requires n < |rnd| && rnd[n] in info
    requires Sampled(info, rnd, picked, n, vAddr, now)
    ensures if IsTerrible(info[rnd[n]].stats, now) then Sampled(info, rnd, picked, n + 1, vAddr, now)
            else Sampled(info, rnd, picked + [n], n + 1, vAddr + [info[rnd[n]].stats], now)
  {
    var picked' := picked + [n];
    assert forall k :: k in picked ==> k in picked';
    assert picked'[|picked|] == n;
  }

  lemma RandomFacts(h: Hashes, t: Tables, i: nat, b: Book)
    requires Consistent(h, t) && Shows(t, b) && i < |t.rnd|
    ensures RandomOk(t) && t.rnd[i] in t.info && t.info[t.rnd[i]].nRandomPos == i
    ensures var s := t.info[t.rnd[i]].stats; s.service.net in b.entries && b.entries[s.service.net] == s
    ensures t.addr[t.info[t.rnd[i]].stats.service.net] == t.rnd[i]
  {
    EntryFacts(h, t, t.rnd[i], {}, 0, b);
  }

  lemma ListedSomewhere(h: Hashes, t: Tables, a: NetAddr, b: Book) returns (i: nat)
    requires Consistent(h, t) && Shows(t, b) && a in b.entries
    ensures i < |t.rnd| && t.rnd[i] in t.info && b.entries[a] == t.info[t.rnd[i]].stats
  {
    var id := t.addr[a];
    assert id in t.info;
    i := t.info[id].nRandomPos;
  }

  lemma SampledMeans(h: Hashes, t: Tables, picked: seq<int>, n: nat, vAddr: seq<Stats>, now: int, b: Book)
    requires Consistent(h, t) && Shows(t, b) && n <= |t.rnd|
    requires Sampled(t.info, t.rnd, picked, n, vAddr, now)
    ensures forall i :: 0 <= i < |vAddr| ==>
              vAddr[i].service.net in b.entries && b.entries[vAddr[i].service.net] == vAddr[i] &&
                !IsTerrible(vAddr[i], now)
    ensures forall i, j :: 0 <= i < j < |vAddr| ==> vAddr[i].service.net != vAddr[j].service.net
    ensures n == |t.rnd| ==> forall a :: a in b.entries && !IsTerrible(b.entries[a], now) ==> b.entries[a] in vAddr
  {
    hide Almost, Shows;
    forall i | 0 <= i < |vAddr|
      ensures vAddr[i].service.net in b.entries && b.entries[vAddr[i].service.net] == vAddr[i]
    {
      RandomFacts(h, t, picked[i], b);
    }
    forall i, j | 0 <= i < j < |vAddr| ensures vAddr[i].service.net != vAddr[j].service.net {
      RandomFacts(h, t, picked[i], b);
      RandomFacts(h, t, picked[j], b);
    }
    if n == |t.rnd| {
      forall a | a in b.entries && !IsTerrible(b.entries[a], now) ensures b.entries[a] in vAddr {
        var k := ListedSomewhere(h, t, a, b);
        var i :| 0 <= i < |picked| && picked[i] == k;
        assert vAddr[i] == b.entries[a];
      }
    }
  }

  class AddrMan {
    const h: Hashes
    var nKey: nat
    var nIdCount: nat
    var mapInfo: map<int, AddrInfo>
    var mapAddr: map<NetAddr, int>
    var vRandom: seq<int>
    var nTried: int
    const vvTried: array2<int>
    var nNew: int
    const vvNew: array2<int>
    var nLastGood: int
    ghost var book: Book

    static ghost function TableOf(a: array2<int>): (r: map<Slot, int>)
      reads a
      ensures forall s :: s in r <==> s.bucket < a.Length0 && s.pos < a.Length1 && a[s.bucket, s.pos] != -1
      ensures forall s :: s in r ==> r[s] == a[s.bucket, s.pos]
    {
      var all := set b: nat, p: nat | b < a.Length0 && p < a.Length1 :: Slot(b, p);
      assert forall s: Slot :: s.bucket < a.Length0 && s.pos < a.Length1 ==> Slot(s.bucket, s.pos) in all;
      map s | s in all && a[s.bucket, s.pos] != -1 :: a[s.bucket, s.pos]
    }

    ghost function Now(): Tables
      reads this, vvNew, vvTried
    {
      Tables(nKey, nIdCount, mapInfo, mapAddr, vRandom, nTried, TableOf(vvTried), nNew, TableOf(vvNew))
    }

    ghost predicate Shaped() {
      && vvNew != vvTried
      && vvNew.Length0 == NEW_BUCKETS && vvNew.Length1 == BUCKET_SIZE
      && vvTried.Length0 == TRIED_BUCKETS && vvTried.Length1 == BUCKET_SIZE
    }

    ghost predicate Mid(floating: set<int>, uncounted: int)
      reads this, vvNew, vvTried
    {
      && Shaped()
      && Almost(h, Now(), floating, uncounted)
      && Shows(Now(), book)
    }

    /** The conditions of Check_, and the book is what the tables show. */
    ghost predicate Valid()
      reads this, vvNew, vvTried
    {
      Mid({}, 0)
    }

    constructor (h: Hashes, key: nat)
      ensures Valid() && fresh(vvNew) && fresh(vvTried)
      ensures this.h == h && nKey == key && book == Book(map[], map[], map[]) && nLastGood == 1
    {
      this.h := h;
      vvNew := new int[NEW_BUCKETS, BUCKET_SIZE];
      vvTried := new int[TRIED_BUCKETS, BUCKET_SIZE];
      new;
      Clear(key);
    }

    /** CAddrMan::Clear */
    method Clear(key: nat)
      requires Shaped()
      modifies this, vvNew, vvTried
      ensures Valid() && Now() == Tables(key, 0, map[], map[], [], 0, map[], 0, map[])
      ensures book == Book(map[], map[], map[]) && nLastGood == 1
    {
      hide Almost, Shows;
      EmptyConsistent(h, key);
      vRandom := [];
      nKey := key;
      ClearTable(vvNew);
      ClearTable(vvTried);
      nIdCount := 0;
      nTried := 0;
      nNew := 0;
      nLastGood := 1;
      mapInfo := map[];
      mapAddr := map[];
      book := Book(map[], map[], map[]);
    }

    static method ClearTable(table: array2<int>)
      modifies table
      ensures TableOf(table) == map[]
    {
      forall bucket, entry | 0 <= bucket < table.Length0 && 0 <= entry < table.Length1 {
        table[bucket, entry] := -1;
      }
    }

    method SetSlot(table: array2<int>, s: Slot, v: int)
      requires s.bucket < table.Length0 && s.pos < table.Length1
      modifies table
      ensures TableOf(table) == if v == -1 then old(TableOf(table)) - {s} else old(TableOf(table))[s := v]
    {
      table[s.bucket, s.pos] := v;
    }

    /** CAddrMan::Find: the entry for an address, if there is one. */
    method Find(a: NetAddr) returns (found: bool, nId: int)
      requires IndexOk(Now())
      ensures found <==> a in mapAddr
      ensures found ==> nId in mapInfo && nId == mapAddr[a] && mapInfo[nId].stats.service.net == a
    {
      if a !in mapAddr {
        return false, -1;
      }
      nId := mapAddr[a];
      found := nId in mapInfo;
    }

    method Create(stats: Stats) returns (nId: int)
      modifies `nIdCount, `mapInfo, `mapAddr, `vRandom
      ensures nId == old(nIdCount)
      ensures Now() == T.Create(old(Now()), stats)
    {
      nId := nIdCount;
      nIdCount := nIdCount + 1;
      mapInfo := mapInfo[nId := AddrInfo(stats, 0, false, -1)];
      mapAddr := mapAddr[stats.service.net := nId];
      mapInfo := mapInfo[nId := mapInfo[nId].(nRandomPos := |vRandom|)];
      vRandom := vRandom + [nId];
    }

    method SwapRandom(nRndPos1: nat, nRndPos2: nat)
      requires RandomOk(Now()) && nRndPos1 < |vRandom| && nRndPos2 < |vRandom|
      modifies `mapInfo, `vRandom
      ensures Now() == T.SwapRandom(old(Now()), nRndPos1, nRndPos2)
      ensures OthersSame(old(mapInfo), mapInfo, -1)
      ensures vRandom == old(vRandom)[nRndPos1 := old(vRandom)[nRndPos2]][nRndPos2 := old(vRandom)[nRndPos1]]
    {
      hide OthersSame;
      OthersSameRefl(mapInfo, -1);
      if nRndPos1 == nRndPos2 {
        return;
      }
      OthersSameMoved(mapInfo, vRandom[nRndPos1], vRandom[nRndPos2], nRndPos1, nRndPos2);
      var nId1 := vRandom[nRndPos1];
      var nId2 := vRandom[nRndPos2];
      mapInfo := mapInfo[nId1 := mapInfo[nId1].(nRandomPos := nRndPos2)];
      mapInfo := mapInfo[nId2 := mapInfo[nId2].(nRandomPos := nRndPos1)];
      vRandom := vRandom[nRndPos1 := nId2];
      vRandom := vRandom[nRndPos2 := nId1];
    }

    method Delete(nId: int, ghost floating: set<int>, ghost uncounted: int)
      requires Mid(floating, uncounted) && nId in floating
      modifies `mapInfo, `mapAddr, `vRandom, `nNew, `book
      ensures Mid(floating - {nId}, uncounted)
      ensures book == old(book).(entries := old(book).entries - {old(mapInfo[nId].stats.service.net)})
      ensures OthersSame(old(mapInfo), mapInfo, nId)
    {
      hide Almost, Shows, RandomOk, T.SwapRandom, OthersSame;
      FloatingFacts(h, Now(), nId, floating, uncounted);
      var info := mapInfo[nId];
      assert !info.fInTried && info.nRefCount == 0;
      SwapKeeps(h, Now(), info.nRandomPos, |vRandom| - 1, floating, uncounted, book);
      SwapRandom(info.nRandomPos, |vRandom| - 1);
      assert info.stats.service.net == mapInfo[nId].stats.service.net by {
        OthersSameAt(old(mapInfo), mapInfo, -1, nId);
      }
      OthersSameAfterDelete(old(mapInfo), mapInfo, nId);
      DropLastEntry(nId, floating, uncounted);
    }

    /** The rest of Delete, with the entry last in the random order. */
    method DropLastEntry(nId: int, ghost floating: set<int>, ghost uncounted: int)
      requires Mid(floating, uncounted) && nId in floating && nId in mapInfo
      requires |vRandom| > 0 && vRandom[|vRandom| - 1] == nId
      modifies `mapInfo, `mapAddr, `vRandom, `nNew, `book
      ensures Mid(floating - {nId}, uncounted) && mapInfo == old(mapInfo) - {nId}
      ensures book == old(book).(entries := old(book).entries - {old(mapInfo[nId].stats.service.net)})
    {
      hide Almost, Shows;
      DropLastKeeps(h, Now(), nId, floating, uncounted, book);
      var net := mapInfo[nId].stats.service.net;
      vRandom := vRandom[..|vRandom| - 1];
      mapAddr := mapAddr - {net};
      mapInfo := mapInfo - {nId};
      nNew := nNew - 1;
      book := book.(entries := book.entries - {net});
    }

    /** Empty an occupied "new" slot and drop the reference it held. */
    method ReleaseSlot(s: Slot, ghost floating: set<int>, ghost uncounted: int) returns (nId: int)
      requires Mid(floating, uncounted)
      requires s in TableOf(vvNew)
      modifies `mapInfo, `book, vvNew
      ensures nId == old(TableOf(vvNew)[s]) && nId !in floating && nId in old(mapInfo)
      ensures old(mapInfo[nId].nRefCount) > 0
      ensures mapInfo == old(mapInfo)[nId := old(mapInfo[nId]).(nRefCount := old(mapInfo[nId].nRefCount) - 1)]
      ensures Mid(if mapInfo[nId].nRefCount == 0 then floating + {nId} else floating, uncounted)
      ensures OthersSame(old(mapInfo), mapInfo, nId)
      ensures TableOf(vvNew) == old(TableOf(vvNew)) - {s}
      ensures s in old(book).newTable && old(book).newTable[s] == mapInfo[nId].stats.service.net
      ensures book == old(book).(newTable := old(book).newTable - {s})
      ensures mapInfo[nId].nRefCount == 0 <==> mapInfo[nId].stats.service.net !in book.newTable.Values
    {
      hide Almost, Shows;
      nId := vvNew[s.bucket, s.pos];
      FiledFacts(h, Now(), s, floating, uncounted, book);
      DropRefKeeps(h, Now(), s, floating, uncounted, book);
      mapInfo := mapInfo[nId := mapInfo[nId].(nRefCount := mapInfo[nId].nRefCount - 1)];
      SetSlot(vvNew, s, -1);
      book := book.(newTable := book.newTable - {s});
    }

    /** CAddrMan::ClearNew */
    method ClearNew(s: Slot, ghost floating: set<int>, ghost uncounted: int)
      requires Mid(floating, uncounted)
      requires s.bucket < NEW_BUCKETS && s.pos < BUCKET_SIZE
      modifies `mapInfo, `mapAddr, `vRandom, `nNew, `book, vvNew
      ensures Mid(floating, uncounted)
      ensures book == Unfile(old(book), s)
      ensures TableOf(vvNew) == old(TableOf(vvNew)) - {s}
      ensures OthersSame(old(mapInfo), mapInfo, old(vvNew[s.bucket, s.pos]))
    {
      hide Almost, Shows;
      ShownSlots(Now(), book);
      if vvNew[s.bucket, s.pos] != -1 {
        var nIdDelete := ReleaseSlot(s, floating, uncounted);
        if mapInfo[nIdDelete].nRefCount == 0 {
          ghost var mid := mapInfo;
          hide OthersSame;
          Delete(nIdDelete, floating + {nIdDelete}, uncounted);
          assert floating + {nIdDelete} - {nIdDelete} == floating;
          OthersSameTwice(old(mapInfo), mid, mapInfo, nIdDelete);
        }
      }
    }

    /** The entry nId floats once it has lost its last "new" slot. */
    ghost function Float(nId: int): set<int>
      reads this
    {
      if nId in mapInfo && mapInfo[nId].nRefCount == 0 then {nId} else {}
    }

    /** One round of the first loop of CAddrMan::MakeTried. */
    method RemoveFromSlot(nId: int, s: Slot)
      requires nId in mapInfo && Mid(Float(nId), 0)
      requires s.bucket < NEW_BUCKETS && s.pos < BUCKET_SIZE
      modifies `mapInfo, `book, vvNew
      ensures nId in mapInfo && Mid(Float(nId), 0)
      ensures mapInfo[nId].stats == old(mapInfo[nId]).stats && mapInfo[nId].fInTried == old(mapInfo[nId]).fInTried
      ensures OthersSame(old(mapInfo), mapInfo, nId)
      ensures book == old(book).(newTable := Without(old(book).newTable, s, old(mapInfo[nId]).stats.service.net))
    {
      hide Almost, Shows;
      EntryFacts(h, Now(), nId, Float(nId), 0, book);
      if vvNew[s.bucket, s.pos] == nId {
        var _ := ReleaseSlot(s, Float(nId), 0);
        assert {} + {nId} == {nId};
      } else {
        NotFiledAt(h, Now(), s, nId, Float(nId), 0, book);
      }
    }

    /** The first loop of CAddrMan::MakeTried: remove an entry from all "new" buckets. */
    method RemoveFromNew(nId: int)
      requires Valid() && nId in mapInfo && !mapInfo[nId].fInTried
      modifies `mapInfo, `book, vvNew
      ensures Mid({nId}, 0)
      ensures OthersSame(old(mapInfo), mapInfo, nId)
      ensures nId in mapInfo && mapInfo[nId].stats == old(mapInfo[nId]).stats
      ensures book == UnfileAll(old(book), old(mapInfo[nId]).stats.service.net)
    {
      hide Almost, Shows, OthersSame, Kept;
      var info := mapInfo[nId];
      ghost var net := info.stats.service.net;
      ghost var table := book.newTable;
      SlotsByBucket(h, Now(), nId, book);
      EntryFacts(h, Now(), nId, {}, 0, book);
      OthersSameRefl(mapInfo, nId);
      KeptNone(table, net);
      for bucket := 0 to NEW_BUCKETS
        modifies `mapInfo, `book, vvNew
        invariant nId in mapInfo && mapInfo[nId].stats == info.stats && !mapInfo[nId].fInTried
        invariant Mid(Float(nId), 0)
        invariant book == old(book).(newTable := Kept(table, net, bucket))
        invariant OthersSame(old(mapInfo), mapInfo, nId)
      {
        ghost var mid := mapInfo;
        var s := Slot(bucket, BucketPosition(h, nKey, true, bucket, info.stats.service));
        KeptStep(table, net, s);
        RemoveFromSlot(nId, s);
        OthersSameTwice(old(mapInfo), mid, mapInfo, nId);
      }
      KeptAll(table, net, NEW_BUCKETS);
      RefCountShown(h, Now(), nId, Float(nId), 0, book);
      assert mapInfo[nId].nRefCount == 0;
    }

    /** Enter an entry into an empty "new" slot. */
    method TakeSlot(s: Slot, nId: int, ghost floating: set<int>, ghost uncounted: int)
      requires Mid(floating, uncounted)
      requires s.bucket < NEW_BUCKETS && s.pos < BUCKET_SIZE && s !in TableOf(vvNew)
      requires nId in mapInfo && !mapInfo[nId].fInTried && mapInfo[nId].nRefCount < NEW_BUCKETS_PER_ADDRESS
      requires s.pos == BucketPosition(h, nKey, true, s.bucket, mapInfo[nId].stats.service)
      modifies `mapInfo, `book, vvNew
      ensures Mid(floating - {nId}, uncounted)
      ensures OthersSame(old(mapInfo), mapInfo, nId)
      ensures nId in mapInfo && mapInfo[nId].stats == old(mapInfo[nId]).stats
      ensures book == old(book).(newTable := old(book).newTable[s := mapInfo[nId].stats.service.net])
    {
      hide Almost, Shows;
      EntryFacts(h, Now(), nId, floating, uncounted, book);
      TakeRefKeeps(h, Now(), s, nId, floating, uncounted, book);
      mapInfo := mapInfo[nId := mapInfo[nId].(nRefCount := mapInfo[nId].nRefCount + 1)];
      SetSlot(vvNew, s, nId);
      book := book.(newTable := book.newTable[s := mapInfo[nId].stats.service.net]);
    }

    /** Remove the entry in a "tried" slot from the tried set. */
    method LeaveTried(s: Slot, ghost floating: set<int>, ghost uncounted: int) returns (nIdEvict: int)
      requires Mid(floating, uncounted) && s in TableOf(vvTried)
      modifies `mapInfo, `nTried, `book, vvTried
      ensures s !in TableOf(vvTried) && nIdEvict !in floating
      ensures s in old(book).triedTable && nIdEvict in mapInfo
      ensures old(book).triedTable[s] == mapInfo[nIdEvict].stats.service.net
      ensures Mid(floating + {nIdEvict}, uncounted + 1)
      ensures OthersSame(old(mapInfo), mapInfo, nIdEvict)
      ensures book == old(book).(triedTable := old(book).triedTable - {s})
    {
      hide Almost, Shows;
      nIdEvict := vvTried[s.bucket, s.pos];
      TriedFacts(h, Now(), s, floating, uncounted, book);
      EvictKeeps(h, Now(), s, floating, uncounted, book);
      mapInfo := mapInfo[nIdEvict := mapInfo[nIdEvict].(fInTried := false)];
      SetSlot(vvTried, s, -1);
      nTried := nTried - 1;
      book := book.(triedTable := book.triedTable - {s});
    }

    /** Clear a "new" slot and enter an entry into it. */
    method Displace(s: Slot, nId: int, ghost floating: set<int>, ghost uncounted: int)
      requires Mid(floating, uncounted)
      requires s.bucket < NEW_BUCKETS && s.pos < BUCKET_SIZE && vvNew[s.bucket, s.pos] != nId
      requires nId in mapInfo && !mapInfo[nId].fInTried && mapInfo[nId].nRefCount < NEW_BUCKETS_PER_ADDRESS
      requires s.pos == BucketPosition(h, nKey, true, s.bucket, mapInfo[nId].stats.service)
      modifies `mapInfo, `mapAddr, `vRandom, `nNew, `book, vvNew
      ensures Mid(floating - {nId}, uncounted)
      ensures FloatingSame(old(mapInfo), mapInfo, floating)
      ensures book == Filed(Unfile(old(book), s), s, old(mapInfo[nId]).stats.service.net)
    {
      hide Almost, Shows, OthersSame, FloatingSame;
      FloatingNotFiled(h, Now(), s, floating, uncounted);
      ghost var m0, occupant := mapInfo, vvNew[s.bucket, s.pos];
      ClearNew(s, floating, uncounted);
      OthersSameAt(m0, mapInfo, occupant, nId);
      ghost var m1 := mapInfo;
      TakeSlot(s, nId, floating, uncounted);
      FloatingSameTwice(h, m0, m1, Now(), occupant, nId, floating);
    }

    /** Enter an entry that left the tried set into the "new" slot of its own source. */
    method Refile(nIdEvict: int, nId: int)
      requires Mid({nId, nIdEvict}, 2) && nId != nIdEvict && nIdEvict in mapInfo
      modifies `mapInfo, `mapAddr, `vRandom, `nNew, `book, vvNew
      ensures Mid({nId}, 1)
      ensures FloatingSame(old(mapInfo), mapInfo, {nId, nIdEvict})
      ensures var stats := old(mapInfo[nIdEvict]).stats;
              var slot := NewSlot(h, nKey, stats.service, stats.source);
              book == Filed(Unfile(old(book), slot), slot, stats.service.net)
    {
      hide Almost, Shows, OthersSame, Unfile;
      ghost var floating := {nId, nIdEvict};
      FloatingFacts(h, Now(), nIdEvict, floating, 2);
      var infoOld := mapInfo[nIdEvict];
      var slot := NewSlot(h, nKey, infoOld.stats.service, infoOld.stats.source);
      FloatingNotFiled(h, Now(), slot, floating, 2);
      Displace(slot, nIdEvict, floating, 2);
      assert floating - {nIdEvict} == {nId};
      CountNewKeeps(h, Now(), 1, {nId}, 2, book);
      nNew := nNew + 1;
    }

    /** The second part of CAddrMan::MakeTried: move the occupant of a "tried" slot back to
        the "new" table, deleting whatever is in its way there. */
    method MakeRoom(kslot: Slot, nId: int)
      requires Mid({nId}, 1)
      requires kslot.bucket < TRIED_BUCKETS && kslot.pos < BUCKET_SIZE
      modifies `mapInfo, `mapAddr, `vRandom, `nNew, `nTried, `book, vvNew, vvTried
      ensures Mid({nId}, 1) && kslot !in TableOf(vvTried)
      ensures FloatingSame(old(mapInfo), mapInfo, {nId})
      ensures book == Demote(h, nKey, old(book), kslot)
    {
      hide Almost, Shows, OthersSame, Unfile, TableOf;
      FloatingFacts(h, Now(), nId, {nId}, 1);
      ShownSlots(Now(), book);
      if vvTried[kslot.bucket, kslot.pos] != -1 {
        EvictTried(kslot, nId);
      }
    }

    /** The occupant of a "tried" slot goes back to the "new" table. */
    method EvictTried(kslot: Slot, nId: int)
      requires Mid({nId}, 1) && kslot in TableOf(vvTried)
      modifies `mapInfo, `mapAddr, `vRandom, `nNew, `nTried, `book, vvNew, vvTried
      ensures Mid({nId}, 1) && kslot !in TableOf(vvTried)
      ensures FloatingSame(old(mapInfo), mapInfo, {nId})
      ensures book == Demote(h, nKey, old(book), kslot)
    {
      hide Almost, Shows, OthersSame, Unfile, TableOf;
      FloatingFacts(h, Now(), nId, {nId}, 1);
      var nIdEvict := LeaveTried(kslot, {nId}, 1);
      assert {nId} + {nIdEvict} == {nId, nIdEvict};
      OthersSameAt(old(mapInfo), mapInfo, nIdEvict, nId);
      EntryFacts(h, Now(), nIdEvict, {nId, nIdEvict}, 2, book);
      Refile(nIdEvict, nId);
    }

    /** CAddrMan::MakeTried */
    method MakeTried(nId: int)
      requires Valid() && nId in mapInfo && !mapInfo[nId].fInTried
      modifies `mapInfo, `mapAddr, `vRandom, `nNew, `nTried, `book, vvNew, vvTried
      ensures Valid()
      ensures old(mapInfo[nId]).stats.service.net in old(book).entries
      ensures book == Promote(h, nKey, old(book), old(mapInfo[nId]).stats.service.net)
    {
      hide Almost, Shows, OthersSame, UnfileAll, Demote;
      EntryFacts(h, Now(), nId, {}, 0, book);
      var info := mapInfo[nId];
      RemoveFromNew(nId);
      CountNewKeeps(h, Now(), -1, {nId}, 0, book);
      nNew := nNew - 1;
      var kslot := TriedSlot(h, nKey, info.stats.service);
      MakeRoom(kslot, nId);
      EnterTried(nId, kslot);
    }

    method EnterTried(nId: int, kslot: Slot)
      requires Mid({nId}, 1) && nId in mapInfo
      requires kslot == TriedSlot(h, nKey, mapInfo[nId].stats.service) && kslot !in TableOf(vvTried)
      modifies `mapInfo, `nTried, `book, vvTried
      ensures Valid()
      ensures book == old(book).(triedTable := old(book).triedTable[kslot := old(mapInfo[nId]).stats.service.net])
    {
      hide Almost, Shows;
      EntryFacts(h, Now(), nId, {nId}, 1, book);
      EnterTriedKeeps(h, Now(), kslot, nId, {nId}, 1, book);
      book := book.(triedTable := book.triedTable[kslot := mapInfo[nId].stats.service.net]);
      SetSlot(vvTried, kslot, nId);
      nTried := nTried + 1;
      mapInfo := mapInfo[nId := mapInfo[nId].(fInTried := true)];
      assert {nId} - {nId} == {};
    }

    method UpdateStats(nId: int, stats: Stats)
      requires Valid() && nId in mapInfo && stats.service == mapInfo[nId].stats.service
      modifies `mapInfo, `book
      ensures Valid()
      ensures mapInfo == old(mapInfo)[nId := old(mapInfo[nId]).(stats := stats)]
      ensures book == old(book).(entries := old(book).entries[stats.service.net := stats])
    {
      hide Almost, Shows;
      SetStatsKeeps(h, Now(), nId, stats, {}, 0, book);
      mapInfo := mapInfo[nId := mapInfo[nId].(stats := stats)];
      book := book.(entries := book.entries[stats.service.net := stats]);
    }

    /** The search of CAddrMan::Good_ for a "new" bucket that holds an entry: from any
        starting point, it always finds one. */
    method FindBucket(nId: int, nRnd: nat) returns (nUBucket: int)
      requires Valid() && nId in mapInfo && !mapInfo[nId].fInTried
      ensures 0 <= nUBucket < NEW_BUCKETS
      ensures vvNew[nUBucket, BucketPosition(h, nKey, true, nUBucket, mapInfo[nId].stats.service)] == nId
    {
      hide Almost, Shows;
      var info := mapInfo[nId];
      ghost var s0 := SomeSlot(h, Now(), nId, book);
      ghost var m := RotationReaches(s0.bucket, nRnd, NEW_BUCKETS);
      for n := 0 to NEW_BUCKETS
        invariant n <= m
      {
        var nB := (n + nRnd) % NEW_BUCKETS;
        var nBpos := BucketPosition(h, nKey, true, nB, info.stats.service);
        if vvNew[nB, nBpos] == nId {
          return nB;
        }
      }
      assert false;
    }

    /** CAddrMan::Good_ */
    method Good(addr: Service, nTime: int, nRnd: nat)
      requires Valid()
      modifies this, vvNew, vvTried
      ensures Valid() && nKey == old(nKey) && nLastGood == nTime
      ensures book == GoodInBook(h, nKey, old(book), addr, nTime)
    {
      hide Almost, Shows, Promote;
      IndexFacts(h, Now(), {}, 0, book);
      nLastGood := nTime;
      var found, nId := Find(addr.net);
      if !found {
        return;
      }
      EntryFacts(h, Now(), nId, {}, 0, book);
      var info := mapInfo[nId];
      if info.stats.service != addr {
        return;
      }
      RefCountShown(h, Now(), nId, {}, 0, book);
      UpdateStats(nId, info.stats.(nLastSuccess := nTime, nLastTry := nTime, nAttempts := 0));
      if info.fInTried {
        return;
      }
      var nUBucket := FindBucket(nId, nRnd);
      assert nUBucket != -1;
      MakeTried(nId);
    }

    /** The filing part of CAddrMan::Add_ (src/addrman.cpp:299-319). */
    method FileEntry(nId: int, source: NetAddr, now: int)
      requires nId in mapInfo && Mid(Float(nId), 0)
      requires !mapInfo[nId].fInTried && mapInfo[nId].nRefCount < NEW_BUCKETS_PER_ADDRESS
      modifies `mapInfo, `mapAddr, `vRandom, `nNew, `book, vvNew
      ensures Valid()
      ensures old(mapInfo[nId]).stats.service.net in old(book).entries
      ensures book == FileNew(h, nKey, old(book), old(mapInfo[nId]).stats.service.net, source, now)
    {
      hide Almost, Shows, Unfile, FloatingSame, FileNew, Filed;
      ghost var floating := Float(nId);
      assert floating - {nId} == {};
      var slot := NewSlot(h, nKey, mapInfo[nId].stats.service, source);
      FileChoice(h, Now(), book, nId, floating, source, now);
      if vvNew[slot.bucket, slot.pos] != nId {
        var fInsert := vvNew[slot.bucket, slot.pos] == -1;
        if !fInsert {
          var infoExisting := mapInfo[vvNew[slot.bucket, slot.pos]];
          if IsTerrible(infoExisting.stats, now) || (infoExisting.nRefCount > 1 && mapInfo[nId].nRefCount == 0) {
            fInsert := true;
          }
        }
        if fInsert {
          Displace(slot, nId, floating, 0);
        } else if mapInfo[nId].nRefCount == 0 {
          Delete(nId, floating, 0);
        }
      }
    }

    /** CAddrMan::Add_ */
    method Add(addr: Address, source: NetAddr, timePenalty: int, now: int, random: nat) returns (fNew: bool)
      requires Valid()
      modifies this, vvNew
      ensures Valid() && nKey == old(nKey) && nLastGood == old(nLastGood)
      ensures fNew <==> h.routable(addr.service.net) && addr.service.net !in old(book).entries
      ensures book == AddToBook(h, nKey, old(book), addr, source, timePenalty, now, random)
    {
      hide Almost, Shows, FileNew, Refreshed;
      var a := addr.service.net;
      if !h.routable(a) {
        return false;
      }
      IndexFacts(h, Now(), {}, 0, book);
      var found, nId := Find(a);
      var nTimePenalty := if a == source then 0 else timePenalty;
      if found {
        EntryFacts(h, Now(), nId, {}, 0, book);
        UpdateStats(nId, Refreshed(mapInfo[nId].stats, addr, nTimePenalty, now));
        EntryFacts(h, Now(), nId, {}, 0, book);
        RefCountShown(h, Now(), nId, {}, 0, book);
        var info := mapInfo[nId];
        fNew := false;
        if addr.nTime == 0 || (info.stats.nTime != 0 && addr.nTime <= info.stats.nTime) {
          return;
        }
        if info.fInTried {
          return;
        }
        if info.nRefCount == NEW_BUCKETS_PER_ADDRESS {
          return;
        }
        var nFactor := Doubled(info.nRefCount);
        if nFactor > 1 && random % nFactor != 0 {
          return;
        }
      } else {
        nId := CreateNew(NewStats(addr, source, nTimePenalty));
        fNew := true;
      }
      FileEntry(nId, source, now);
    }

    static method Doubled(nRefCount: nat) returns (nFactor: nat)
      ensures nFactor == Pow2(nRefCount)
    {
      nFactor := 1;
      for n := 0 to nRefCount
        invariant nFactor == Pow2(n)
      {
        nFactor := nFactor * 2;
      }
    }

    /** Create an entry for an unknown address; until it is filed it floats. */
    method CreateNew(stats: Stats) returns (nId: int)
      requires Valid() && stats.service.net !in mapAddr
      modifies `nIdCount, `mapInfo, `mapAddr, `vRandom, `nNew, `book
      ensures nId in mapInfo && mapInfo[nId].stats == stats
      ensures mapInfo[nId].nRefCount == 0 && !mapInfo[nId].fInTried
      ensures Mid({nId}, 0)
      ensures book == old(book).(entries := old(book).entries[stats.service.net := stats])
    {
      hide Almost, Shows;
      CreateKeeps(h, Now(), stats, book);
      nId := Create(stats);
      book := book.(entries := book.entries[stats.service.net := stats]);
      CountNewKeeps(h, Now(), 1, {nId}, 1, book);
      nNew := nNew + 1;
    }

    /** CAddrMan::Attempt_ */
    method Attempt(addr: Service, fCountFailure: bool, nTime: int)
      requires Valid()
      modifies `mapInfo, `book
      ensures Valid()
      ensures book == AttemptInBook(old(book), addr, fCountFailure, nTime, nLastGood)
    {
      hide Almost, Shows;
      IndexFacts(h, Now(), {}, 0, book);
      var found, nId := Find(addr.net);
      if !found {
        return;
      }
      EntryFacts(h, Now(), nId, {}, 0, book);
      var stats := mapInfo[nId].stats;
      if stats.service != addr {
        return;
      }
      stats := stats.(nLastTry := nTime);
      if fCountFailure && stats.nLastCountAttempt < nLastGood {
        stats := stats.(nLastCountAttempt := nTime, nAttempts := stats.nAttempts + 1);
      }
      UpdateStats(nId, stats);
    }

    /** CAddrMan::Connected_ */
    method Connected(addr: Service, nTime: int)
      requires Valid()
      modifies `mapInfo, `book
      ensures Valid()
      ensures book == ConnectedInBook(old(book), addr, nTime)
    {
      hide Almost, Shows;
      IndexFacts(h, Now(), {}, 0, book);
      var found, nId := Find(addr.net);
      if !found {
        return;
      }
      EntryFacts(h, Now(), nId, {}, 0, book);
      var stats := mapInfo[nId].stats;
      if stats.service != addr {
        return;
      }
      if nTime - stats.nTime > 20 * 60 {
        UpdateStats(nId, stats.(nTime := ToUint32(nTime)));
      }
    }

    /** CAddrMan::SetServices_ */
    method SetServices(addr: Service, nServices: bv64)
      requires Valid()
      modifies `mapInfo, `book
      ensures Valid()
      ensures book == ServicesInBook(old(book), addr, nServices)
    {
      hide Almost, Shows;
      IndexFacts(h, Now(), {}, 0, book);
      var found, nId := Find(addr.net);
      if found {
        EntryFacts(h, Now(), nId, {}, 0, book);
        var stats := mapInfo[nId].stats;
        if stats.service == addr {
          UpdateStats(nId, stats.(nServices := nServices));
        }
      }
    }

    /** The number of addresses that one getaddr request may reveal. */
    function GetAddrLimit(): (r: nat)
      reads this
      ensures r <= 2500 && 100 * r <= 23 * |vRandom|
      ensures r < 2500 ==> 23 * |vRandom| < 100 * (r + 1)
    {
      var nNodes := GETADDR_MAX_PCT * |vRandom| / 100;
      if nNodes > GETADDR_MAX then GETADDR_MAX else nNodes
    }

    /** CAddrMan::GetAddr_: a random sample without repetition, without terrible entries,
        and complete unless the limit is reached. */
    method GetAddr(now: int, random: nat -> nat) returns (vAddr: seq<Stats>)
      requires Valid()
      modifies `mapInfo, `vRandom
      ensures Valid() && GetAddrLimit() == old(GetAddrLimit())
      ensures |vRandom| == old(|vRandom|) && |vAddr| <= GetAddrLimit()
      ensures forall i :: 0 <= i < |vAddr| ==>
                && vAddr[i].service.net in book.entries && book.entries[vAddr[i].service.net] == vAddr[i]
                && !IsTerrible(vAddr[i], now)
      ensures forall i, j :: 0 <= i < j < |vAddr| ==> vAddr[i].service.net != vAddr[j].service.net
      ensures |vAddr| < GetAddrLimit() ==>
                forall a :: a in book.entries && !IsTerrible(book.entries[a], now) ==> book.entries[a] in vAddr
    {
      hide Almost, Shows, RandomOk, Sampled;
      var nNodes := GetAddrLimit();
      vAddr := [];
      ghost var picked: seq<int> := [];
      SampledNone(mapInfo, vRandom, now);
      var n := 0;
      while n < |vRandom| && |vAddr| < nNodes
        invariant 0 <= n <= |vRandom| == old(|vRandom|) && |vAddr| <= nNodes
        invariant Valid()
        invariant Sampled(mapInfo, vRandom, picked, n, vAddr, now)
      {
        vAddr, picked := SampleNext(n, random(n) % (|vRandom| - n) + n, vAddr, now, picked);
        n := n + 1;
      }
      SampledMeans(h, Now(), picked, n, vAddr, now, book);
    }

    /** One step of the partial shuffle. */
    method SampleNext(n: nat, nRndPos: nat, vAddr0: seq<Stats>, now: int, ghost picked0: seq<int>)
      returns (vAddr: seq<Stats>, ghost picked: seq<int>)
      requires Valid() && n <= nRndPos < |vRandom| && Sampled(mapInfo, vRandom, picked0, n, vAddr0, now)
      modifies `mapInfo, `vRandom
      ensures Valid() && |vRandom| == old(|vRandom|) && |vAddr| <= |vAddr0| + 1
      ensures Sampled(mapInfo, vRandom, picked, n + 1, vAddr, now)
    {
      hide Almost, Shows, RandomOk, Sampled, T.SwapRandom;
      vAddr, picked := vAddr0, picked0;
      RandomFacts(h, Now(), n, book);
      RandomFacts(h, Now(), nRndPos, book);
      SampledSwap(Now(), picked, n, nRndPos, vAddr, now);
      SwapKeeps(h, Now(), n, nRndPos, {}, 0, book);
      SwapRandom(n, nRndPos);
      RandomFacts(h, Now(), n, book);
      var ai := mapInfo[vRandom[n]];
      SampledStep(mapInfo, vRandom, picked, n, vAddr, now);
      if !IsTerrible(ai.stats, now) {
        vAddr := vAddr + [ai.stats];
        picked := picked + [n];
      }
    }
  }
}

