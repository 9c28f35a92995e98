/** The peers.dat codec of the address manager (src/addrman.h:301-478). The stream is a
    sequence of tokens, one per value written with operator<<. */
module AddrManFile {
  import opened AddrTables
  import opened AddrMan
  import opened Counting

  /** One written value; an Info token holds the serialized fields of a CAddrInfo. */
  datatype Token = Byte(b: nat) | Key(key: nat) | Int(n: int) | Word(w: bv32) | Info(stats: Stats)

  /** nLastTry and nLastCountAttempt are kept in memory only. */
  function Saved(s: Stats): (r: Stats)
    ensures r.service == s.service && r.nServices == s.nServices && r.nTime == s.nTime && r.source == s.source
    ensures r.nLastSuccess == s.nLastSuccess && r.nAttempts == s.nAttempts
    ensures r.nLastTry == 0 && r.nLastCountAttempt == 0
  {
    s.(nLastTry := 0, nLastCountAttempt := 0)
  }

  ghost function SavedBook(b: Book): Book {
    b.(entries := map a | a in b.entries :: Saved(b.entries[a]))
  }

  // ----- What is written -----

  /** The ids below n that are in the "new" table, in increasing order. */
  ghost function NewBelow(info: map<int, AddrInfo>, n: nat): seq<int> {
    if n == 0 then [] else
      NewBelow(info, n - 1) + if n - 1 in info && info[n - 1].nRefCount != 0 then [n - 1] else []
  }

  ghost function TriedBelow(info: map<int, AddrInfo>, n: nat): seq<int> {
    if n == 0 then [] else
      TriedBelow(info, n - 1) + if n - 1 in info && info[n - 1].fInTried then [n - 1] else []
  }

  /** The order in which entries are written: "new" ones first, by id. */
  ghost function Order(t: Tables): seq<int> {
    NewBelow(t.info, t.idCount) + TriedBelow(t.info, t.idCount)
  }

  ghost function InfoToken(info: map<int, AddrInfo>, id: int): Token {
    if id in info then Info(Saved(info[id].stats)) else Byte(0)
  }

  ghost function Infos(info: map<int, AddrInfo>, ids: seq<int>): (r: seq<Token>)
    ensures |r| == |ids|
  {
    seq(|ids|, i requires 0 <= i < |ids| => InfoToken(info, ids[i]))
  }

  /** The occupied positions below n of a "new" bucket. */
  ghost function Occupied(t: Tables, bucket: nat, n: nat): seq<nat> {
    if n == 0 then [] else
      Occupied(t, bucket, n - 1) + if Slot(bucket, n - 1) in t.newTable then [n - 1] else []
  }

  /** The index under which an entry of the "new" table is written. */
  ghost function Rank(t: Tables, id: int): nat {
    if id < 0 then 0 else |NewBelow(t.info, id)|
  }

  ghost function RankAt(t: Tables, bucket: nat, pos: nat): int {
    var s := Slot(bucket, pos);
    if s in t.newTable then Rank(t, t.newTable[s]) else 0
  }

  ghost function Indexes(t: Tables, bucket: nat, occ: seq<nat>): (r: seq<Token>)
    ensures |r| == |occ|
  {
    seq(|occ|, i requires 0 <= i < |occ| => Int(RankAt(t, bucket, occ[i])))
  }

  ghost function BucketTokens(t: Tables, bucket: nat): seq<Token> {
    var occ := Occupied(t, bucket, BUCKET_SIZE);
    [Int(|occ|)] + Indexes(t, bucket, occ)
  }

  ghost function Buckets(t: Tables, n: nat): seq<Token> {
    if n == 0 then [] else Buckets(t, n - 1) + BucketTokens(t, n - 1)
  }

  function Flip(n: bv32): bv32 { n ^ 0x4000_0000 }

  function Header(key: nat, nNew: int, nTried: int): (r: seq<Token>)
    ensures |r| == 6 && r[0] == Byte(1) && r[1] == Byte(32) && r[2] == Key(key)
    ensures r[3] == Int(nNew) && r[4] == Int(nTried) && r[5] == Word(0x4000_0400)
  {
    [Byte(1), Byte(32), Key(key), Int(nNew), Int(nTried), Word(Flip(1024))]
  }

  ghost function Encode(t: Tables): seq<Token> {
    Header(t.key, t.nNew, t.nTried) + Infos(t.info, Order(t)) + Buckets(t, NEW_BUCKETS)
  }

  // ----- The write order lists every entry once -----

  lemma {:induction false} NewBelowMeans(info: map<int, AddrInfo>, n: nat)
    ensures forall id :: id in NewBelow(info, n) <==> 0 <= id < n && id in info && info[id].nRefCount != 0
    ensures forall i, j :: 0 <= i < j < |NewBelow(info, n)| ==> NewBelow(info, n)[i] < NewBelow(info, n)[j]
  {
    if n > 0 {
      NewBelowMeans(info, n - 1);
      var prefix := NewBelow(info, n - 1);
      assert forall i :: 0 <= i < |prefix| ==> prefix[i] in prefix;
    }
  }

  lemma {:induction false} TriedBelowMeans(info: map<int, AddrInfo>, n: nat)
    ensures forall id :: id in TriedBelow(info, n) <==> 0 <= id < n && id in info && info[id].fInTried
    ensures forall i, j :: 0 <= i < j < |TriedBelow(info, n)| ==> TriedBelow(info, n)[i] < TriedBelow(info, n)[j]
  {
    if n > 0 {
      TriedBelowMeans(info, n - 1);
      var prefix := TriedBelow(info, n - 1);
      assert forall i :: 0 <= i < |prefix| ==> prefix[i] in prefix;
    }
  }

  /** An entry of the "new" table is written at the index that the buckets refer to. */
  lemma {:induction false} RankIndexes(info: map<int, AddrInfo>, n: nat, id: int)
    requires 0 <= id < n && id in info && info[id].nRefCount != 0
    ensures |NewBelow(info, id)| < |NewBelow(info, n)| && NewBelow(info, n)[|NewBelow(info, id)|] == id
  {
    if id < n - 1 {
      RankIndexes(info, n - 1, id);
    }
  }

  lemma OrderCounts(h: Hashes, t: Tables)
    requires Consistent(h, t)
    ensures |NewBelow(t.info, t.idCount)| == t.nNew && |TriedBelow(t.info, t.idCount)| == t.nTried
  {
    hide NewBelow, TriedBelow, Almost;
    NewBelowMeans(t.info, t.idCount);
    TriedBelowMeans(t.info, t.idCount);
    assert |NewIds(t.info)| == t.nNew && |TriedIds(t.info)| == t.nTried by { CountParts(h, t); }
    forall id ensures id in NewBelow(t.info, t.idCount) <==> id in NewIds(t.info) {
      NewIffReferenced(h, t, id);
    }
    forall id ensures id in TriedBelow(t.info, t.idCount) <==> id in TriedIds(t.info) {
      NewIffReferenced(h, t, id);
    }
    DistinctCount(NewBelow(t.info, t.idCount), NewIds(t.info));
    DistinctCount(TriedBelow(t.info, t.idCount), TriedIds(t.info));
  }

  lemma CountParts(h: Hashes, t: Tables)
    requires Consistent(h, t)
    ensures |NewIds(t.info)| == t.nNew && |TriedIds(t.info)| == t.nTried
  {}

  lemma NewIffReferenced(h: Hashes, t: Tables, id: int)
    requires Consistent(h, t)
    ensures id in t.info ==> 0 <= id < t.idCount && (t.info[id].nRefCount != 0 <==> !t.info[id].fInTried)
  {
    if id in t.info && t.info[id].fInTried {
      assert Holders(t.newTable, id) == {};
    }
  }

  // ----- Writing -----

  lemma InfosAppend(info: map<int, AddrInfo>, ids: seq<int>, id: int)
    ensures Infos(info, ids + [id]) == Infos(info, ids) + [InfoToken(info, id)]
  {}

  lemma InfosConcat(info: map<int, AddrInfo>, ids: seq<int>, ids': seq<int>)
    ensures Infos(info, ids + ids') == Infos(info, ids) + Infos(info, ids')
  {}

  lemma {:induction false} TriedRank(info: map<int, AddrInfo>, n: nat, id: int)
    requires 0 <= id < n && id in info && info[id].fInTried
    ensures |TriedBelow(info, id)| < |TriedBelow(info, n)|
  {
    if id < n - 1 {
      TriedRank(info, n - 1, id);
    }
  }

  method WriteNew(m: AddrMan) returns (s: seq<Token>, mapUnkIds: map<int, int>)
    requires Consistent(m.h, m.Now())
    ensures s == Infos(m.mapInfo, NewBelow(m.mapInfo, m.nIdCount))
    ensures forall x :: x in m.mapInfo ==> x in mapUnkIds && mapUnkIds[x] == Rank(m.Now(), x)
  {
    hide RandomOk, NewOk, TriedOk, RefsOk, FiledOk, CountsOk;
    OrderCounts(m.h, m.Now());
    s, mapUnkIds := [], map[];
    var nIds := 0;
    for id := 0 to m.nIdCount
      invariant nIds == |NewBelow(m.mapInfo, id)|
      invariant s == Infos(m.mapInfo, NewBelow(m.mapInfo, id))
      invariant forall x :: x in m.mapInfo && 0 <= x < id ==> x in mapUnkIds && mapUnkIds[x] == Rank(m.Now(), x)
    {
      if id in m.mapInfo {
        mapUnkIds := mapUnkIds[id := nIds];
        var info := m.mapInfo[id];
        if info.nRefCount != 0 {
          assert nIds != m.nNew by { RankIndexes(m.mapInfo, m.nIdCount, id); }
          InfosAppend(m.mapInfo, NewBelow(m.mapInfo, id), id);
          s := s + [Info(Saved(info.stats))];
          nIds := nIds + 1;
        }
      }
    }
  }

  method WriteTried(m: AddrMan) returns (s: seq<Token>)
    requires Consistent(m.h, m.Now())
    ensures s == Infos(m.mapInfo, TriedBelow(m.mapInfo, m.nIdCount))
  {
    hide Almost;
    OrderCounts(m.h, m.Now());
    s := [];
    var nIds := 0;
    for id := 0 to m.nIdCount
      invariant nIds == |TriedBelow(m.mapInfo, id)|
      invariant s == Infos(m.mapInfo, TriedBelow(m.mapInfo, id))
    {
      if id in m.mapInfo {
        var info := m.mapInfo[id];
        if info.fInTried {
          assert nIds != m.nTried by { TriedRank(m.mapInfo, m.nIdCount, id); }
          InfosAppend(m.mapInfo, TriedBelow(m.mapInfo, id), id);
          s := s + [Info(Saved(info.stats))];
          nIds := nIds + 1;
        }
      }
    }
  }

  lemma IndexesAppend(t: Tables, bucket: nat, occ: seq<nat>, pos: nat)
    ensures Indexes(t, bucket, occ + [pos]) == Indexes(t, bucket, occ) + [Int(RankAt(t, bucket, pos))]
  {}

  method WriteBucket(m: AddrMan, bucket: nat, mapUnkIds: map<int, int>) returns (s: seq<Token>)
    requires m.Valid() && bucket < NEW_BUCKETS
    requires forall x :: x in m.mapInfo ==> x in mapUnkIds && mapUnkIds[x] == Rank(m.Now(), x)
    ensures s == BucketTokens(m.Now(), bucket)
  {
    hide Almost, Shows, Rank;
    ghost var t := m.Now();
    var nSize := 0;
    for i := 0 to BUCKET_SIZE
      invariant nSize == |Occupied(t, bucket, i)|
    {
      if m.vvNew[bucket, i] != -1 {
        nSize := nSize + 1;
      }
    }
    var indexes: seq<Token> := [];
    for i := 0 to BUCKET_SIZE
      invariant indexes == Indexes(t, bucket, Occupied(t, bucket, i))
    {
      if m.vvNew[bucket, i] != -1 {
        FiledFacts(m.h, t, Slot(bucket, i), {}, 0, m.book);
        var nIndex := mapUnkIds[m.vvNew[bucket, i]];
        IndexesAppend(t, bucket, Occupied(t, bucket, i), i);
        indexes := indexes + [Int(nIndex)];
      }
    }
    s := [Int(nSize)] + indexes;
  }

  /** CAddrMan::Serialize; the two asserts about nNew and nTried hold. */
  method Serialize(m: AddrMan) returns (s: seq<Token>)
    requires m.Valid()
    ensures s == Encode(m.Now())
    ensures |s| >= 6 && s[0] == Byte(1) && s[1] == Byte(32) && s[2] == Key(m.nKey)
    ensures s[3] == Int(m.nNew) && s[4] == Int(m.nTried) && s[5] == Word(0x4000_0400)
  {
    hide Almost, Shows, Rank, BucketTokens;
    ghost var t := m.Now();
    s := Header(m.nKey, m.nNew, m.nTried);
    var news, mapUnkIds := WriteNew(m);
    var trieds := WriteTried(m);
    InfosConcat(t.info, NewBelow(t.info, t.idCount), TriedBelow(t.info, t.idCount));
    var buckets: seq<Token> := [];
    for bucket := 0 to NEW_BUCKETS
      invariant buckets == Buckets(t, bucket)
    {
      var b := WriteBucket(m, bucket, mapUnkIds);
      buckets := buckets + b;
    }
    s := s + news + trieds + buckets;
    assert s == Header(t.key, t.nNew, t.nTried) + (news + trieds) + buckets;
  }

  // ----- Reading back: entries -----

  /** A numbering of the entries, the "new" ones first. */
  ghost predicate Numbering(t: Tables, order: seq<int>) {
    && t.nNew >= 0 && t.nTried >= 0 && |order| == t.nNew + t.nTried
    && (forall i :: 0 <= i < |order| ==> order[i] in t.info && (t.info[order[i]].fInTried <==> i >= t.nNew))
    && (forall i, j :: 0 <= i < j < |order| ==> order[i] != order[j])
    && (forall id :: id in t.info ==> id in order)
  }

  /** The index written for each filed entry is its place in the numbering. */
  ghost predicate RanksMatch(t: Tables, order: seq<int>) {
    forall s :: s in t.newTable ==>
      RankAt(t, s.bucket, s.pos) < t.nNew && RankAt(t, s.bucket, s.pos) < |order|
      && order[RankAt(t, s.bucket, s.pos)] == t.newTable[s]
  }

  lemma NewThenTried(t: Tables, news: seq<int>, trieds: seq<int>)
    requires |news| == t.nNew && |trieds| == t.nTried
    requires forall id :: id in news <==> id in t.info && !t.info[id].fInTried
    requires forall id :: id in trieds <==> id in t.info && t.info[id].fInTried
    requires forall i, j :: 0 <= i < j < |news| ==> news[i] < news[j]
    requires forall i, j :: 0 <= i < j < |trieds| ==> trieds[i] < trieds[j]
    ensures Numbering(t, news + trieds)
  {
    var order := news + trieds;
    forall i | 0 <= i < |order| ensures order[i] in t.info && (t.info[order[i]].fInTried <==> i >= t.nNew) {
      if i < t.nNew {
        assert news[i] in news;
      } else {
        assert trieds[i - t.nNew] in trieds;
      }
    }
  }

  lemma OrderNumbers(h: Hashes, t: Tables)
    requires Consistent(h, t)
    ensures Numbering(t, Order(t))
  {
    hide Almost, Numbering;
    OrderCounts(h, t);
    NewBelowMeans(t.info, t.idCount);
    TriedBelowMeans(t.info, t.idCount);
    forall id ensures id in t.info ==> 0 <= id < t.idCount && (t.info[id].nRefCount != 0 <==> !t.info[id].fInTried) {
      NewIffReferenced(h, t, id);
    }
    NewThenTried(t, NewBelow(t.info, t.idCount), TriedBelow(t.info, t.idCount));
  }

  lemma RanksAreNumbers(h: Hashes, t: Tables)
    requires Consistent(h, t)
    ensures RanksMatch(t, Order(t))
  {
    hide Almost;
    OrderCounts(h, t);
    forall s | s in t.newTable
      ensures RankAt(t, s.bucket, s.pos) < t.nNew && Order(t)[RankAt(t, s.bucket, s.pos)] == t.newTable[s]
    {
      FiledReferenced(h, t, s);
      assert s == Slot(s.bucket, s.pos);
      RankIndexes(t.info, t.idCount, t.newTable[s]);
    }
  }

  lemma FiledReferenced(h: Hashes, t: Tables, s: Slot)
    requires Consistent(h, t) && s in t.newTable
    ensures t.newTable[s] in t.info && 0 <= t.newTable[s] < t.idCount && t.info[t.newTable[s]].nRefCount != 0
  {
    var id := t.newTable[s];
    assert id in t.info;
    NewIffReferenced(h, t, id);
  }

  /** The first n entries are loaded: entry order[i] of t now has id i. */
  ghost predicate LoadedInfo(t: Tables, order: seq<int>, u: Tables, n: nat) {
    && (forall i :: i in u.info <==> 0 <= i < n)
    && (forall i :: 0 <= i < n && i < |order| && order[i] in t.info ==>
          && u.info[i].stats == Saved(t.info[order[i]].stats)
          && u.info[i].fInTried == t.info[order[i]].fInTried
          && u.info[i].nRandomPos == i)
  }

  ghost predicate LoadedIndex(t: Tables, order: seq<int>, u: Tables, n: nat) {
    && |u.rnd| == n && (forall i :: 0 <= i < n ==> u.rnd[i] == i)
    && (forall i :: 0 <= i < n && i < |order| && order[i] in t.info ==>
          NetOf(t, order[i]) in u.addr && u.addr[NetOf(t, order[i])] == i)
    && (forall a :: a in u.addr ==>
          0 <= u.addr[a] < n && u.addr[a] < |order| && order[u.addr[a]] in t.info && NetOf(t, order[u.addr[a]]) == a)
  }

  ghost function NetOf(t: Tables, id: int): NetAddr
    requires id in t.info
  {
    t.info[id].stats.service.net
  }

  ghost predicate LoadedTried(t: Tables, order: seq<int>, u: Tables, n: nat) {
    && (forall s :: s in u.triedTable ==>
          0 <= u.triedTable[s] < n && u.triedTable[s] < |order| && s in t.triedTable &&
            t.triedTable[s] == order[u.triedTable[s]])
    && (forall s :: s in t.triedTable && t.triedTable[s] in order[..if n <= |order| then n else |order|] ==>
         s in u.triedTable)
  }

  ghost predicate Loaded(t: Tables, order: seq<int>, u: Tables, n: nat) {
    LoadedInfo(t, order, u, n) && LoadedIndex(t, order, u, n) && LoadedTried(t, order, u, n)
  }

  function LoadNew(u: Tables, n: nat, stats: Stats): Tables {
    u.(info := u.info[n as int := AddrInfo(stats, 0, false, |u.rnd|)],
       addr := u.addr[stats.service.net := n],
       rnd := u.rnd + [n as int])
  }

  function LoadTried(h: Hashes, u: Tables, n: nat, stats: Stats): Tables {
    u.(info := u.info[n as int := AddrInfo(stats, 0, true, |u.rnd|)],
       addr := u.addr[stats.service.net := n],
       rnd := u.rnd + [n as int],
       triedTable := u.triedTable[TriedSlot(h, u.key, stats.service) := n])
  }

  lemma LoadInfoStep(t: Tables, order: seq<int>, u: Tables, v: Tables, n: nat)
    requires Numbering(t, order) && LoadedInfo(t, order, u, n) && n < |order|
    requires v.info == u.info[n as int := AddrInfo(Saved(t.info[order[n]].stats), 0, t.info[order[n]].fInTried, n)]
    ensures LoadedInfo(t, order, v, n + 1)
  {}

  lemma LoadIndexStep(t: Tables, order: seq<int>, u: Tables, v: Tables, n: nat)
    requires Numbering(t, order) && IndexOk(t) && LoadedIndex(t, order, u, n) && n < |order|
    requires v.addr == u.addr[NetOf(t, order[n]) := n] && v.rnd == u.rnd + [n as int]
    ensures LoadedIndex(t, order, v, n + 1)
  {
    forall i | 0 <= i < n ensures NetOf(t, order[i]) != NetOf(t, order[n]) {
      assert order[i] in t.info && order[n] in t.info && order[i] != order[n];
    }
  }

  lemma LoadTriedSame(t: Tables, order: seq<int>, u: Tables, v: Tables, n: nat)
    requires Numbering(t, order) && LoadedTried(t, order, u, n) && n < |order|
    requires v.triedTable == u.triedTable
    requires forall s :: s in t.triedTable ==> t.triedTable[s] != order[n]
    ensures LoadedTried(t, order, v, n + 1)
  {
    assert order[..n + 1] == order[..n] + [order[n]];
  }

  lemma TriedSlotOf(h: Hashes, t: Tables, id: int)
    requires TriedOk(h, t) && id in t.info && t.info[id].fInTried
    ensures var slot := TriedSlot(h, t.key, t.info[id].stats.service);
            && slot in t.triedTable && t.triedTable[slot] == id
            && forall s :: s in t.triedTable && t.triedTable[s] == id ==> s == slot
  {
  }

  lemma LoadTriedStep(h: Hashes, t: Tables, order: seq<int>, u: Tables, v: Tables, n: nat)
    requires Numbering(t, order) && TriedOk(h, t) && LoadedTried(t, order, u, n) && n < |order|
    requires t.info[order[n]].fInTried
    requires v.triedTable == u.triedTable[TriedSlot(h, t.key, t.info[order[n]].stats.service) := n]
    ensures TriedSlot(h, t.key, t.info[order[n]].stats.service) !in u.triedTable
    ensures LoadedTried(t, order, v, n + 1)
  {
    hide TriedOk, TriedSlot;
    var id := order[n];
    TriedSlotOf(h, t, id);
    assert order[..n + 1] == order[..n] + [id];
  }

  // ----- Reading back: the "new" buckets -----

  /** Slots of earlier buckets, and of this bucket at the given positions. */
  ghost predicate Done(s: Slot, bucket: nat, occ: seq<nat>) {
    s.bucket < bucket || (s.bucket == bucket && s.pos in occ)
  }

  ghost predicate Refiled(t: Tables, u: Tables, bucket: nat, occ: seq<nat>) {
    && (forall s :: s in u.newTable <==> s in t.newTable && Done(s, bucket, occ))
    && (forall s :: s in u.newTable ==> u.newTable[s] == RankAt(t, s.bucket, s.pos))
  }

  lemma HoldersWithin(t: Tables, order: seq<int>, u: Tables, bucket: nat, occ: seq<nat>, i: int)
    requires RanksMatch(t, order) && Refiled(t, u, bucket, occ) && 0 <= i < |order|
    ensures Holders(u.newTable, i) <= Holders(t.newTable, order[i])
    ensures forall s :: s in Holders(u.newTable, i) ==> Done(s, bucket, occ)
  {
    forall s | s in Holders(u.newTable, i) ensures s in Holders(t.newTable, order[i]) {
      assert RankAt(t, s.bucket, s.pos) == i;
    }
  }

  lemma RefileRoom(h: Hashes, t: Tables, order: seq<int>, u: Tables, s: Slot, occ: seq<nat>)
    requires Consistent(h, t) && Numbering(t, order) && RanksMatch(t, order)
    requires LoadedInfo(t, order, u, |order|) && u.key == t.key && RefsOk(u)
    requires Refiled(t, u, s.bucket, occ) && s in t.newTable && s.pos !in occ
    ensures var i := RankAt(t, s.bucket, s.pos);
            && 0 <= i < t.nNew && i in u.info && 0 <= u.info[i].nRefCount < NEW_BUCKETS_PER_ADDRESS
            && s.pos == BucketPosition(h, u.key, true, s.bucket, u.info[i].stats.service)
            && s !in u.newTable
  {
    var i := RankAt(t, s.bucket, s.pos);
    var id := order[i];
    assert t.newTable[s] == id && id in t.info && i in u.info;
    HoldersWithin(t, order, u, s.bucket, occ, i);
    FewerHolders(Holders(u.newTable, i), Holders(t.newTable, id), s);
    assert t.info[id].nRefCount <= NEW_BUCKETS_PER_ADDRESS;
  }

  lemma FewerHolders(some: set<Slot>, all: set<Slot>, s: Slot)
    requires some <= all && s in all && s !in some
    ensures |some| < |all|
  {
    SubsetCount(some, all - {s});
  }

  lemma RefileStep(t: Tables, u: Tables, s: Slot, occ: seq<nat>)
    requires Refiled(t, u, s.bucket, occ) && s in t.newTable && RankAt(t, s.bucket, s.pos) in u.info
    ensures Refiled(t, TakeRef(u, s, RankAt(t, s.bucket, s.pos)), s.bucket, occ + [s.pos])
  {
    forall x ensures Done(x, s.bucket, occ + [s.pos]) <==> Done(x, s.bucket, occ) || x == s {
      assert s.pos in occ + [s.pos];
    }
  }

  lemma {:induction false} OccupiedMeans(t: Tables, bucket: nat, n: nat)
    ensures forall p: nat :: p in Occupied(t, bucket, n) <==> p < n && Slot(bucket, p) in t.newTable
    ensures forall i, j :: 0 <= i < j < |Occupied(t, bucket, n)| ==>
              Occupied(t, bucket, n)[i] < Occupied(t, bucket, n)[j]
  {
    if n > 0 {
      OccupiedMeans(t, bucket, n - 1);
      var prefix := Occupied(t, bucket, n - 1);
      assert forall i :: 0 <= i < |prefix| ==> prefix[i] in prefix;
    }
  }

  lemma RefileBucketDone(h: Hashes, t: Tables, u: Tables, bucket: nat)
    requires NewOk(h, t) && Refiled(t, u, bucket, Occupied(t, bucket, BUCKET_SIZE))
    ensures Refiled(t, u, bucket + 1, [])
  {
    OccupiedMeans(t, bucket, BUCKET_SIZE);
    forall s | s in t.newTable
      ensures Done(s, bucket, Occupied(t, bucket, BUCKET_SIZE)) <==> Done(s, bucket + 1, [])
    {
      assert s == Slot(s.bucket, s.pos) && s.pos < BUCKET_SIZE;
    }
  }

  // ----- What was read back is consistent and shows the same book -----

  lemma ReloadedIndexes(t: Tables, order: seq<int>, u: Tables)
    requires Numbering(t, order) && LoadedInfo(t, order, u, |order|) && LoadedIndex(t, order, u, |order|)
    requires u.idCount == |order|
    ensures IndexOk(u) && RandomOk(u)
  {}

  lemma ReloadedTried(h: Hashes, t: Tables, order: seq<int>, u: Tables)
    requires Numbering(t, order) && TriedOk(h, t) && u.key == t.key
    requires LoadedInfo(t, order, u, |order|) && LoadedTried(t, order, u, |order|)
    ensures TriedOk(h, u)
  {
    assert order[..|order|] == order;
    forall s | s in u.triedTable ensures u.triedTable[s] in u.info {
      var i := u.triedTable[s];
      assert order[i] in t.info;
    }
    forall i | i in u.info && u.info[i].fInTried
      ensures TriedSlot(h, u.key, u.info[i].stats.service) in u.triedTable
              && u.triedTable[TriedSlot(h, u.key, u.info[i].stats.service)] == i
    {
      var id := order[i];
      assert id in t.info;
      var s := TriedSlot(h, t.key, t.info[id].stats.service);
      assert t.triedTable[s] == id && id in order;
    }
  }

  lemma ReloadedNew(h: Hashes, t: Tables, order: seq<int>, u: Tables)
    requires NewOk(h, t) && Numbering(t, order) && RanksMatch(t, order) && u.key == t.key
    requires LoadedInfo(t, order, u, |order|) && Refiled(t, u, NEW_BUCKETS, [])
    ensures NewOk(h, u)
  {
    forall s | s in u.newTable
      ensures u.newTable[s] in u.info && !u.info[u.newTable[s]].fInTried
              && s.pos == BucketPosition(h, u.key, true, s.bucket, u.info[u.newTable[s]].stats.service)
    {
      var i := RankAt(t, s.bucket, s.pos);
      var id := order[i];
      assert t.newTable[s] == id && id in t.info && i in u.info;
    }
  }

  lemma ReloadedHolders(h: Hashes, t: Tables, order: seq<int>, u: Tables, i: int)
    requires NewOk(h, t) && Numbering(t, order) && RanksMatch(t, order)
    requires Refiled(t, u, NEW_BUCKETS, []) && 0 <= i < |order|
    ensures Holders(u.newTable, i) == Holders(t.newTable, order[i])
  {
    HoldersWithin(t, order, u, NEW_BUCKETS, [], i);
    forall s | s in Holders(t.newTable, order[i]) ensures s in Holders(u.newTable, i) {
      assert Done(s, NEW_BUCKETS, []);
      assert order[RankAt(t, s.bucket, s.pos)] == order[i];
    }
  }

  lemma ReloadedFiled(h: Hashes, t: Tables, order: seq<int>, u: Tables)
    requires Consistent(h, t) && Numbering(t, order) && RanksMatch(t, order) && RefsOk(u)
    requires LoadedInfo(t, order, u, |order|) && Refiled(t, u, NEW_BUCKETS, [])
    ensures FiledOk(u, {})
    ensures forall i :: 0 <= i < |order| ==> u.info[i].nRefCount == t.info[order[i]].nRefCount
  {
    forall i | i in u.info ensures u.info[i].nRefCount == t.info[order[i]].nRefCount {
      assert order[i] in t.info;
      ReloadedHolders(h, t, order, u, i);
    }
    forall i | i in u.info && !u.info[i].fInTried ensures 1 <= u.info[i].nRefCount <= NEW_BUCKETS_PER_ADDRESS {
      var id := order[i];
      assert id in t.info;
    }
  }

  lemma ReloadedCounts(t: Tables, order: seq<int>, u: Tables)
    requires Numbering(t, order) && LoadedInfo(t, order, u, |order|)
    requires u.nNew == t.nNew && u.nTried == t.nTried
    ensures CountsOk(u, 0)
  {
    forall i ensures i in NewIds(u.info) <==> 0 <= i < t.nNew {
      assert 0 <= i < |order| ==> order[i] in t.info;
    }
    forall i ensures i in TriedIds(u.info) <==> t.nNew <= i < t.nNew + t.nTried {
      assert 0 <= i < |order| ==> order[i] in t.info;
    }
    RangeCount(0, t.nNew, NewIds(u.info));
    RangeCount(t.nNew, t.nNew + t.nTried, TriedIds(u.info));
  }

  /** u holds the entries of t under new ids, filed exactly as in t. */
  ghost predicate Renamed(t: Tables, order: seq<int>, u: Tables) {
    && Numbering(t, order) && RanksMatch(t, order) && Loaded(t, order, u, |order|)
    && Refiled(t, u, NEW_BUCKETS, [])
    && u.key == t.key && u.nNew == t.nNew && u.nTried == t.nTried && u.idCount == |order|
  }

  lemma ReloadedConsistent(h: Hashes, t: Tables, order: seq<int>, u: Tables)
    requires Consistent(h, t) && Renamed(t, order, u) && RefsOk(u)
    ensures Consistent(h, u)
  {
    ReloadedIndexes(t, order, u);
    ReloadedTried(h, t, order, u);
    ReloadedNew(h, t, order, u);
    ReloadedFiled(h, t, order, u);
    ReloadedCounts(t, order, u);
  }

  lemma ReloadedEntries(t: Tables, order: seq<int>, u: Tables, b: Book)
    requires IndexOk(t) && ShowsEntries(t, b.entries) && Numbering(t, order)
    requires LoadedInfo(t, order, u, |order|) && LoadedIndex(t, order, u, |order|)
    ensures ShowsEntries(u, SavedBook(b).entries)
  {
    var entries := SavedBook(b).entries;
    forall a ensures a in entries <==> a in u.addr {
      if a in t.addr {
        var id := t.addr[a];
        assert id in t.info && id in order;
        var i :| 0 <= i < |order| && order[i] == id;
        assert NetOf(t, order[i]) == a;
      }
      if a in u.addr {
        var id := order[u.addr[a]];
        assert id in t.info && t.addr[a] == id;
      }
    }
    assert entries.Keys == u.addr.Keys;
    forall i | i in u.info
      ensures u.info[i].stats.service.net in entries && entries[u.info[i].stats.service.net] == u.info[i].stats
    {
      var id := order[i];
      assert id in t.info;
    }
  }

  lemma ReloadedNewKeys(t: Tables, u: Tables, slots: map<Slot, NetAddr>, s: Slot)
    requires ShowsSlots(t, t.newTable, slots) && Refiled(t, u, NEW_BUCKETS, [])
    requires s in t.newTable ==> s.bucket < NEW_BUCKETS
    ensures s in u.newTable <==> s in slots
  {
    assert s in t.newTable ==> Done(s, NEW_BUCKETS, []);
  }

  lemma ReloadedNewSlots(h: Hashes, t: Tables, order: seq<int>, u: Tables, slots: map<Slot, NetAddr>)
    requires NewOk(h, t) && ShowsSlots(t, t.newTable, slots)
    requires Numbering(t, order) && RanksMatch(t, order) && LoadedInfo(t, order, u, |order|)
    requires Refiled(t, u, NEW_BUCKETS, [])
    ensures ShowsSlots(u, u.newTable, slots)
  {
    hide Numbering, RanksMatch, LoadedInfo, Refiled, NewOk;
    forall s ensures s in u.newTable <==> s in slots {
      NewSlotRange(h, t, s);
      ReloadedNewKeys(t, u, slots, s);
    }
    forall s | s in u.newTable && u.newTable[s] in u.info ensures slots[s] == u.info[u.newTable[s]].stats.service.net {
      ReloadedNewAt(h, t, order, u, slots, s);
    }
  }

  lemma NewSlotRange(h: Hashes, t: Tables, s: Slot)
    requires NewOk(h, t)
    ensures s in t.newTable ==> s.bucket < NEW_BUCKETS
  {}

  lemma ReloadedNewAt(h: Hashes, t: Tables, order: seq<int>, u: Tables, slots: map<Slot, NetAddr>, s: Slot)
    requires NewOk(h, t) && ShowsSlots(t, t.newTable, slots)
    requires Numbering(t, order) && RanksMatch(t, order) && LoadedInfo(t, order, u, |order|)
    requires Refiled(t, u, NEW_BUCKETS, []) && s in u.newTable
    ensures u.newTable[s] in u.info && s in slots && slots[s] == u.info[u.newTable[s]].stats.service.net
  {
    var id := order[u.newTable[s]];
    assert id in t.info && t.newTable[s] == id;
  }

  lemma ReloadedTriedKeys(h: Hashes, t: Tables, order: seq<int>, u: Tables)
    requires TriedOk(h, t) && Numbering(t, order) && LoadedTried(t, order, u, |order|)
    ensures u.triedTable.Keys == t.triedTable.Keys
  {
    assert order[..|order|] == order;
    forall s | s in t.triedTable ensures s in u.triedTable {
      var id := t.triedTable[s];
      assert id in t.info && id in order;
    }
  }

  lemma ReloadedTriedSlots(t: Tables, order: seq<int>, u: Tables, slots: map<Slot, NetAddr>)
    requires u.triedTable.Keys == t.triedTable.Keys && ShowsSlots(t, t.triedTable, slots)
    requires Numbering(t, order) && LoadedInfo(t, order, u, |order|) && LoadedTried(t, order, u, |order|)
    ensures ShowsSlots(u, u.triedTable, slots)
  {
    forall s | s in u.triedTable && u.triedTable[s] in u.info
      ensures slots[s] == u.info[u.triedTable[s]].stats.service.net
    {
      var id := order[u.triedTable[s]];
      assert id in t.info && t.triedTable[s] == id;
    }
  }

  /** Reading back what was written keeps the book, up to the memory-only fields. */
  lemma ReloadedShows(h: Hashes, t: Tables, order: seq<int>, u: Tables, b: Book)
    requires Consistent(h, t) && Shows(t, b) && Renamed(t, order, u)
    ensures Shows(u, SavedBook(b))
  {
    hide Almost, Shows, Numbering, RanksMatch, Loaded, Refiled;
    Parts(h, t);
    ShowsParts(t, b);
    LoadedParts(t, order, u, |order|);
    ReloadedEntries(t, order, u, b);
    ReloadedNewSlots(h, t, order, u, b.newTable);
    ReloadedTriedKeys(h, t, order, u);
    ReloadedTriedSlots(t, order, u, b.triedTable);
    ShowsWhole(u, SavedBook(b));
  }

  lemma ShowsParts(t: Tables, b: Book)
    requires Shows(t, b)
    ensures ShowsEntries(t, b.entries) && ShowsSlots(t, t.newTable, b.newTable) &&
              ShowsSlots(t, t.triedTable, b.triedTable)
  {}

  lemma ShowsWhole(t: Tables, b: Book)
    requires ShowsEntries(t, b.entries) && ShowsSlots(t, t.newTable, b.newTable) &&
               ShowsSlots(t, t.triedTable, b.triedTable)
    ensures Shows(t, b)
  {}

  lemma LoadedParts(t: Tables, order: seq<int>, u: Tables, n: nat)
    requires Loaded(t, order, u, n)
    ensures LoadedInfo(t, order, u, n) && LoadedIndex(t, order, u, n) && LoadedTried(t, order, u, n)
  {}

  // ----- Reading -----

  /** Nothing is filed in the "new" table yet. */
  ghost predicate NoRefs(u: Tables) {
    u.newTable == map[] && forall i :: i in u.info ==> u.info[i].nRefCount == 0
  }

  lemma StreamInfos(h: Hashes, t: Tables, i: nat)
    requires i < |Order(t)| && Order(t)[i] in t.info
    ensures |Encode(t)| >= 6 + |Order(t)| && Encode(t)[6 + i] == Info(Saved(t.info[Order(t)[i]].stats))
  {}

  lemma NewNotListed(h: Hashes, t: Tables, id: int)
    requires Consistent(h, t) && id in t.info && !t.info[id].fInTried
    ensures forall s :: s in t.triedTable ==> t.triedTable[s] != id
  {}

  lemma LoadNewKeeps(h: Hashes, t: Tables, u: Tables, n: nat)
    requires Consistent(h, t) && Numbering(t, Order(t)) && n < t.nNew
    requires Loaded(t, Order(t), u, n) && NoRefs(u)
    ensures Order(t)[n] in t.info && !t.info[Order(t)[n]].fInTried
    ensures var v := LoadNew(u, n, Saved(t.info[Order(t)[n]].stats)); Loaded(t, Order(t), v, n + 1) && NoRefs(v)
  {
    hide Almost, Order, LoadedInfo, LoadedIndex, LoadedTried;
    var order := Order(t);
    var v := LoadNew(u, n, Saved(t.info[order[n]].stats));
    LoadedSize(t, order, u, n);
    Parts(h, t);
    NewNotListed(h, t, order[n]);
    LoadInfoStep(t, order, u, v, n);
    LoadIndexStep(t, order, u, v, n);
    LoadTriedSame(t, order, u, v, n);
  }

  lemma LoadedSize(t: Tables, order: seq<int>, u: Tables, n: nat)
    requires LoadedIndex(t, order, u, n)
    ensures |u.rnd| == n
  {}

  lemma Parts(h: Hashes, t: Tables)
    requires Consistent(h, t)
    ensures IndexOk(t) && NewOk(h, t) && TriedOk(h, t) && RefsOk(t)
  {}

  lemma LoadTriedKeeps(h: Hashes, t: Tables, u: Tables, n: nat)
    requires Consistent(h, t) && Numbering(t, Order(t)) && t.nNew <= n < |Order(t)|
    requires Loaded(t, Order(t), u, n) && NoRefs(u) && u.key == t.key
    ensures Order(t)[n] in t.info
    ensures var stats := Saved(t.info[Order(t)[n]].stats);
            && TriedSlot(h, u.key, stats.service) !in u.triedTable
            && Loaded(t, Order(t), LoadTried(h, u, n, stats), n + 1) && NoRefs(LoadTried(h, u, n, stats))
  {
    hide Almost, Order, LoadedInfo, LoadedIndex, LoadedTried;
    var order := Order(t);
    var v := LoadTried(h, u, n, Saved(t.info[order[n]].stats));
    LoadedSize(t, order, u, n);
    Parts(h, t);
    LoadInfoStep(t, order, u, v, n);
    LoadIndexStep(t, order, u, v, n);
    LoadTriedStep(h, t, order, u, v, n);
  }

  method ReadNew(m: AddrMan, s: seq<Token>, nNew: int, ghost t: Tables)
    requires m.Shaped() && Consistent(m.h, t) && Numbering(t, Order(t)) && s == Encode(t) && nNew == t.nNew
    requires Loaded(t, Order(t), m.Now(), 0) && NoRefs(m.Now())
    modifies m`mapInfo, m`mapAddr, m`vRandom
    ensures Loaded(t, Order(t), m.Now(), t.nNew) && NoRefs(m.Now())
  {
    hide Almost, Loaded, Numbering, NoRefs, Order, Encode;
    NumberingBounds(t, Order(t));
    for n := 0 to nNew
      modifies m`mapInfo, m`mapAddr, m`vRandom
      invariant Loaded(t, Order(t), m.Now(), n) && NoRefs(m.Now())
    {
      LoadNewKeeps(m.h, t, m.Now(), n);
      StreamInfos(m.h, t, n);
      var info := AddrInfo(s[6 + n].stats, 0, false, -1);
      m.mapAddr := m.mapAddr[info.stats.service.net := n];
      info := info.(nRandomPos := |m.vRandom|);
      m.mapInfo := m.mapInfo[n := info];
      m.vRandom := m.vRandom + [n];
    }
  }

  method ReadTried(m: AddrMan, s: seq<Token>, nNew: int, nTried: int, ghost t: Tables) returns (nLost: int)
    requires m.Shaped() && Consistent(m.h, t) && Numbering(t, Order(t)) && s == Encode(t)
    requires nNew == t.nNew && nTried == t.nTried && m.nIdCount == nNew && m.nKey == t.key
    requires Loaded(t, Order(t), m.Now(), nNew) && NoRefs(m.Now())
    modifies m`mapInfo, m`mapAddr, m`vRandom, m`nIdCount, m.vvTried
    ensures Loaded(t, Order(t), m.Now(), |Order(t)|) && NoRefs(m.Now())
    ensures m.nIdCount == |Order(t)| && nLost == 0
  {
    hide Almost, Loaded, Numbering, NoRefs, Order, Encode, LoadTried;
    NumberingBounds(t, Order(t));
    nLost := 0;
    for n := 0 to nTried
      modifies m`mapInfo, m`mapAddr, m`vRandom, m`nIdCount, m.vvTried
      invariant m.nIdCount == nNew + n && nLost == 0
      invariant Loaded(t, Order(t), m.Now(), m.nIdCount) && NoRefs(m.Now())
    {
      LoadTriedKeeps(m.h, t, m.Now(), m.nIdCount);
      StreamInfos(m.h, t, m.nIdCount);
      var lost := ReadOneTried(m, s[6 + nNew + n].stats, t);
      if lost {
        nLost := nLost + 1;
      }
    }
  }

  /** The entry read next goes to its "tried" slot unless that is taken. */
  method ReadOneTried(m: AddrMan, stats: Stats, ghost t: Tables) returns (lost: bool)
    requires m.Shaped() && Consistent(m.h, t) && Numbering(t, Order(t)) && m.nKey == t.key
    requires t.nNew <= m.nIdCount < |Order(t)| && Order(t)[m.nIdCount] in t.info
    requires stats == Saved(t.info[Order(t)[m.nIdCount]].stats)
    requires Loaded(t, Order(t), m.Now(), m.nIdCount) && NoRefs(m.Now())
    modifies m`mapInfo, m`mapAddr, m`vRandom, m`nIdCount, m.vvTried
    ensures !lost && m.nIdCount == old(m.nIdCount) + 1
    ensures Loaded(t, Order(t), m.Now(), m.nIdCount) && NoRefs(m.Now())
  {
    hide Almost, Loaded, Numbering, NoRefs, Order, Encode, LoadTried;
    LoadTriedKeeps(m.h, t, m.Now(), m.nIdCount);
    var info := AddrInfo(stats, 0, false, -1);
    var kslot := TriedSlot(m.h, m.nKey, info.stats.service);
    lost := m.vvTried[kslot.bucket, kslot.pos] != -1;
    if !lost {
      ghost var u := LoadTried(m.h, m.Now(), m.nIdCount, info.stats);
      LoadedFrame(t, Order(t), u, u.(idCount := m.nIdCount + 1), m.nIdCount + 1);
      StoreTried(m, info, kslot);
    }
  }

  method StoreTried(m: AddrMan, info: AddrInfo, kslot: Slot)
    requires m.Shaped() && kslot == TriedSlot(m.h, m.nKey, info.stats.service) && info.nRefCount == 0
    modifies m`mapInfo, m`mapAddr, m`vRandom, m`nIdCount, m.vvTried
    ensures m.Now() == old(LoadTried(m.h, m.Now(), m.nIdCount, info.stats).(idCount := m.nIdCount + 1))
  {
    m.mapInfo := m.mapInfo[m.nIdCount as int := info.(nRandomPos := |m.vRandom|, fInTried := true)];
    m.vRandom := m.vRandom + [m.nIdCount];
    m.mapAddr := m.mapAddr[info.stats.service.net := m.nIdCount];
    m.SetSlot(m.vvTried, kslot, m.nIdCount);
    m.nIdCount := m.nIdCount + 1;
  }

  lemma LoadedFrame(t: Tables, order: seq<int>, u: Tables, v: Tables, n: nat)
    requires Loaded(t, order, u, n) && NoRefs(u)
    requires v == u.(idCount := v.idCount, nNew := v.nNew, nTried := v.nTried, key := v.key)
    ensures Loaded(t, order, v, n) && NoRefs(v)
  {}

  // The position of a bucket in the stream

  lemma {:induction false} BucketsPrefix(t: Tables, bucket: nat, n: nat)
    requires bucket < n
    ensures Buckets(t, bucket) + BucketTokens(t, bucket) <= Buckets(t, n)
  {
    if bucket < n - 1 {
      BucketsPrefix(t, bucket, n - 1);
    }
  }

  ghost function BucketStart(t: Tables, bucket: nat): nat {
    6 + |Order(t)| + |Buckets(t, bucket)|
  }

  lemma StreamBucket(t: Tables, bucket: nat)
    requires bucket < NEW_BUCKETS
    ensures BucketStart(t, bucket + 1) == BucketStart(t, bucket) + 1 + |Occupied(t, bucket, BUCKET_SIZE)| <= |Encode(t)|
    ensures Encode(t)[BucketStart(t, bucket)] == Int(|Occupied(t, bucket, BUCKET_SIZE)|)
    ensures forall j :: 0 <= j < |Occupied(t, bucket, BUCKET_SIZE)| ==>
              Encode(t)[BucketStart(t, bucket) + 1 + j] == Int(RankAt(t, bucket, Occupied(t, bucket, BUCKET_SIZE)[j]))
  {
    hide Order, Buckets, Infos, Header, Occupied, RankAt;
    BucketsPrefix(t, bucket, NEW_BUCKETS);
    BucketsNext(t, bucket);
    var front := Header(t.key, t.nNew, t.nTried) + Infos(t.info, Order(t));
    assert |front| == 6 + |Order(t)| by { HeaderSize(t.key, t.nNew, t.nTried); }
    var before, tokens, all := Buckets(t, bucket), BucketTokens(t, bucket), Buckets(t, NEW_BUCKETS);
    PartAt(front, before, tokens, all);
    forall j | 0 <= j < |Occupied(t, bucket, BUCKET_SIZE)|
      ensures Encode(t)[BucketStart(t, bucket) + 1 + j] == Int(RankAt(t, bucket, Occupied(t, bucket, BUCKET_SIZE)[j]))
    {
      assert Encode(t)[|front| + |before| + (1 + j)] == tokens[1 + j];
    }
  }

  lemma BucketsNext(t: Tables, bucket: nat)
    ensures Buckets(t, bucket + 1) == Buckets(t, bucket) + BucketTokens(t, bucket)
  {}

  lemma HeaderSize(key: nat, nNew: int, nTried: int)
    ensures |Header(key, nNew, nTried)| == 6
  {}

  lemma PartAt(front: seq<Token>, before: seq<Token>, part: seq<Token>, all: seq<Token>)
    requires before + part <= all
    ensures |front| + |before| + |part| <= |front + all|
    ensures forall j :: 0 <= j < |part| ==> (front + all)[|front| + |before| + j] == part[j]
  {
    forall j | 0 <= j < |part| ensures (front + all)[|front| + |before| + j] == part[j] {
      assert all[|before| + j] == (before + part)[|before| + j];
    }
  }

  /** Everything but the "new" table is loaded, and that up to the given bucket. */
  ghost predicate PartlyRefiled(h: Hashes, t: Tables, u: Tables, bucket: nat, occ: seq<nat>) {
    && Numbering(t, Order(t)) && RanksMatch(t, Order(t))
    && Loaded(t, Order(t), u, |Order(t)|) && RefsOk(u) && Refiled(t, u, bucket, occ)
    && u.key == t.key && u.nNew == t.nNew && u.nTried == t.nTried && u.idCount == |Order(t)|
  }

  lemma RefileKeeps(h: Hashes, t: Tables, u: Tables, s: Slot, occ: seq<nat>)
    requires Consistent(h, t) && PartlyRefiled(h, t, u, s.bucket, occ) && s in t.newTable && s.pos !in occ
    ensures var i := RankAt(t, s.bucket, s.pos);
            && 0 <= i < t.nNew && i in u.info && u.info[i].nRefCount < NEW_BUCKETS_PER_ADDRESS
            && s.pos == BucketPosition(h, u.key, true, s.bucket, u.info[i].stats.service)
            && s !in u.newTable
            && PartlyRefiled(h, t, TakeRef(u, s, i), s.bucket, occ + [s.pos])
  {
    hide Almost, Numbering, RanksMatch, LoadedInfo, LoadedIndex, LoadedTried, RefsOk, Refiled, Order;
    var i := RankAt(t, s.bucket, s.pos);
    RefileRoom(h, t, Order(t), u, s, occ);
    TakeRefRefs(u, s, i);
    RefileStep(t, u, s, occ);
    TakeRefLoaded(t, Order(t), u, s, i, |Order(t)|);
  }

  lemma TakeRefLoaded(t: Tables, order: seq<int>, u: Tables, s: Slot, i: int, n: nat)
    requires Loaded(t, order, u, n) && i in u.info
    ensures Loaded(t, order, TakeRef(u, s, i), n)
  {}

  method ReadBucket(m: AddrMan, s: seq<Token>, bucket: nat, pos: nat, ghost t: Tables) returns (pos': nat)
    requires m.Shaped() && Consistent(m.h, t) && s == Encode(t)
    requires bucket < NEW_BUCKETS && pos == BucketStart(t, bucket)
    requires PartlyRefiled(m.h, t, m.Now(), bucket, [])
    modifies m`mapInfo, m.vvNew
    ensures PartlyRefiled(m.h, t, m.Now(), bucket, Occupied(t, bucket, BUCKET_SIZE))
    ensures pos' == BucketStart(t, bucket + 1)
  {
    hide Almost, PartlyRefiled, Order, Encode, RankAt, BucketStart;
    StreamBucket(t, bucket);
    ghost var occ := Occupied(t, bucket, BUCKET_SIZE);
    OccupiedMeans(t, bucket, BUCKET_SIZE);
    var nSize := s[pos].n;
    pos' := pos + 1;
    assert occ[..0] == [];
    for n := 0 to nSize
      modifies m`mapInfo, m.vvNew
      invariant pos' == pos + 1 + n
      invariant PartlyRefiled(m.h, t, m.Now(), bucket, occ[..n])
    {
      assert s[pos + 1 + n] == Int(RankAt(t, bucket, occ[n]));
      assert occ[n] in occ && occ[n] !in occ[..n];
      RefileKeeps(m.h, t, m.Now(), Slot(bucket, occ[n]), occ[..n]);
      RefileFacts(m.h, t, m.Now(), bucket, occ[..n]);
      assert occ[..n + 1] == occ[..n] + [occ[n]];
      var nIndex := s[pos'].n;
      pos' := pos' + 1;
      if 0 <= nIndex < m.nNew {
        var info := m.mapInfo[nIndex];
        var nUBucketPos := BucketPosition(m.h, m.nKey, true, bucket, info.stats.service);
        if m.vvNew[bucket, nUBucketPos] == -1 && info.nRefCount < NEW_BUCKETS_PER_ADDRESS {
          m.mapInfo := m.mapInfo[nIndex := info.(nRefCount := info.nRefCount + 1)];
          m.SetSlot(m.vvNew, Slot(bucket, nUBucketPos), nIndex);
        }
      }
    }
    assert occ[..nSize] == occ;
  }

  lemma RefileFacts(h: Hashes, t: Tables, u: Tables, bucket: nat, occ: seq<nat>)
    requires PartlyRefiled(h, t, u, bucket, occ)
    ensures u.nNew == t.nNew && forall i :: 0 <= i < u.nNew ==> i in u.info
  {}

  method ReadBuckets(m: AddrMan, s: seq<Token>, nUBuckets: nat, pos: nat, ghost t: Tables)
    requires m.Shaped() && Consistent(m.h, t) && s == Encode(t)
    requires nUBuckets == NEW_BUCKETS && pos == BucketStart(t, 0)
    requires PartlyRefiled(m.h, t, m.Now(), 0, [])
    modifies m`mapInfo, m.vvNew
    ensures PartlyRefiled(m.h, t, m.Now(), NEW_BUCKETS, [])
  {
    hide Almost, PartlyRefiled, Encode, BucketStart;
    var pos' := pos;
    for bucket := 0 to nUBuckets
      modifies m`mapInfo, m.vvNew
      invariant pos' == BucketStart(t, bucket)
      invariant PartlyRefiled(m.h, t, m.Now(), bucket, [])
    {
      pos' := ReadBucket(m, s, bucket, pos', t);
      BucketKeeps(m.h, t, m.Now(), bucket);
    }
  }

  lemma BucketKeeps(h: Hashes, t: Tables, u: Tables, bucket: nat)
    requires Consistent(h, t) && PartlyRefiled(h, t, u, bucket, Occupied(t, bucket, BUCKET_SIZE))
    ensures PartlyRefiled(h, t, u, bucket + 1, [])
  {
    hide Almost, Numbering, RanksMatch, Loaded, RefsOk, Refiled, Order;
    Parts(h, t);
    RefileBucketDone(h, t, u, bucket);
  }

  lemma NothingRefiled(h: Hashes, t: Tables, u: Tables)
    requires Consistent(h, t) && Loaded(t, Order(t), u, |Order(t)|) && NoRefs(u)
    requires u.key == t.key && u.nNew == t.nNew && u.nTried == t.nTried && u.idCount == |Order(t)|
    ensures PartlyRefiled(h, t, u, 0, [])
  {
    hide Almost, Numbering, RanksMatch, Loaded, Order;
    OrderNumbers(h, t);
    RanksAreNumbers(h, t);
    forall i | i in u.info ensures |Holders(u.newTable, i)| == 0 {
      assert Holders(u.newTable, i) == {};
    }
  }

  lemma NothingLoaded(t: Tables, order: seq<int>, u: Tables)
    requires u.info == map[] && u.addr == map[] && u.rnd == [] && u.triedTable == map[] && u.newTable == map[]
    ensures Loaded(t, order, u, 0) && NoRefs(u)
  {}

  lemma FlipTwice(n: bv32)
    ensures Flip(Flip(n)) == n
  {}

  lemma RefiledIsRenamed(h: Hashes, t: Tables, u: Tables)
    requires Consistent(h, t) && PartlyRefiled(h, t, u, NEW_BUCKETS, [])
    ensures Renamed(t, Order(t), u) && Consistent(h, u)
  {
    hide Almost, Numbering, RanksMatch, LoadedInfo, LoadedIndex, LoadedTried, RefsOk, Refiled, Order;
    ReloadedConsistent(h, t, Order(t), u);
  }

  // The counts never exceed the limits that Unserialize checks (src/addrman.h:372-378)

  lemma {:induction false} SlotCount(slots: set<Slot>, buckets: nat, positions: nat)
    requires forall s :: s in slots ==> s.bucket < buckets && s.pos < positions
    ensures |slots| <= buckets * positions
  {
    if buckets == 0 {
      assert slots == {};
    } else {
      var last := set s | s in slots && s.bucket == buckets - 1;
      var first := slots - last;
      SlotCount(first, buckets - 1, positions);
      BucketCount(last, buckets - 1, positions);
      assert slots == first + last;
      assert buckets * positions == (buckets - 1) * positions + positions;
    }
  }

  lemma {:induction false} BucketCount(slots: set<Slot>, bucket: nat, positions: nat)
    requires forall s :: s in slots ==> s.bucket == bucket && s.pos < positions
    ensures |slots| <= positions
  {
    if positions == 0 {
      assert slots == {};
    } else {
      BucketCount(slots - {Slot(bucket, positions - 1)}, bucket, positions - 1);
    }
  }

  lemma WithinCapacity(h: Hashes, t: Tables)
    requires Consistent(h, t)
    ensures t.nNew <= NEW_BUCKETS * BUCKET_SIZE && t.nTried <= TRIED_BUCKETS * BUCKET_SIZE
  {
    forall id | id in NewIds(t.info) ensures id in t.newTable.Values {
      assert Holders(t.newTable, id) != {} by { assert |Holders(t.newTable, id)| >= 1; }
      var s :| s in Holders(t.newTable, id);
      assert t.newTable[s] == id;
    }
    forall id | id in TriedIds(t.info) ensures id in t.triedTable.Values {
      var s := TriedSlot(h, t.key, t.info[id].stats.service);
      assert t.triedTable[s] == id;
    }
    SubsetCount(NewIds(t.info), t.newTable.Values);
    SubsetCount(TriedIds(t.info), t.triedTable.Values);
    ValuesCount(t.newTable);
    ValuesCount(t.triedTable);
    SlotCount(t.newTable.Keys, NEW_BUCKETS, BUCKET_SIZE);
    SlotCount(t.triedTable.Keys, TRIED_BUCKETS, BUCKET_SIZE);
  }

  lemma StreamHeader(t: Tables)
    ensures |Encode(t)| >= 6 && Encode(t)[..6] == Header(t.key, t.nNew, t.nTried)
    ensures BucketStart(t, 0) == 6 + |Order(t)|
  {}

  method ReadHeader(m: AddrMan, s: seq<Token>, ghost t: Tables) returns (nUBuckets: bv32)
    requires m.Shaped() && Consistent(m.h, t) && s == Encode(t)
    requires Loaded(t, Order(t), m.Now(), 0) && NoRefs(m.Now())
    modifies m`nKey, m`nNew, m`nTried
    ensures m.nKey == t.key && m.nNew == t.nNew && m.nTried == t.nTried && nUBuckets == 1024
    ensures Loaded(t, Order(t), m.Now(), 0) && NoRefs(m.Now())
  {
    hide Almost, Loaded, NoRefs, Order, Encode;
    StreamHeader(t);
    FlipTwice(1024);
    WithinCapacity(m.h, t);
    LoadedFrame(t, Order(t), m.Now(), m.Now().(key := t.key, nNew := t.nNew, nTried := t.nTried), 0);
    var nVersion := s[0].b;
    var nKeySize := s[1].b;
    assert nVersion == 1 && nKeySize == 32;
    m.nKey := s[2].key;
    m.nNew := s[3].n;
    m.nTried := s[4].n;
    nUBuckets := Flip(s[5].w);
    assert m.nNew <= NEW_BUCKETS * BUCKET_SIZE && m.nTried <= TRIED_BUCKETS * BUCKET_SIZE;
  }

  /** CAddrMan::Unserialize, on a stream that Serialize wrote from consistent tables t that
      show the book b: no entry is lost, and the result shows the same book. */
  method Unserialize(m: AddrMan, s: seq<Token>, randomKey: nat, ghost t: Tables, ghost b: Book)
    requires m.Shaped() && Consistent(m.h, t) && Shows(t, b) && s == Encode(t)
    modifies m, m.vvNew, m.vvTried
    ensures m.Valid() && Renamed(t, Order(t), m.Now())
    ensures m.book == SavedBook(b)
  {
    hide Almost, Shows, Numbering, Loaded, Refiled, NoRefs, Order, PartlyRefiled, Renamed, SavedBook, Encode;
    m.Clear(randomKey);
    NothingLoaded(t, Order(t), m.Now());
    OrderNumbers(m.h, t);
    NumberingBounds(t, Order(t));
    StreamHeader(t);
    var nUBuckets := ReadHeader(m, s, t);
    ReadNew(m, s, m.nNew, t);
    LoadedFrame(t, Order(t), m.Now(), m.Now().(idCount := m.nNew), m.nNew);
    m.nIdCount := m.nNew;
    var nLost := ReadTried(m, s, m.nNew, m.nTried, t);
    m.nTried := m.nTried - nLost;
    NothingRefiled(m.h, t, m.Now());
    ReadBuckets(m, s, nUBuckets as nat, 6 + m.nNew + m.nTried, t);
    RefiledIsRenamed(m.h, t, m.Now());
    ReloadedShows(m.h, t, Order(t), m.Now(), b);
    m.book := SavedBook(b);
    var nLostUnk := Prune(m);
    assert nLost + nLostUnk == 0;
  }

  /** The pruning loop that ends Unserialize (src/addrman.h:440-449): it never finds an
      entry to delete. */
  method Prune(m: AddrMan) returns (nLostUnk: int)
    requires Consistent(m.h, m.Now())
    ensures nLostUnk == 0
  {
    hide Almost;
    nLostUnk := 0;
    for id := 0 to m.nIdCount
      invariant nLostUnk == 0
    {
      if id in m.mapInfo {
        NewIffReferenced(m.h, m.Now(), id);
        if !m.mapInfo[id].fInTried && m.mapInfo[id].nRefCount == 0 {
          nLostUnk := nLostUnk + 1;
        }
      }
    }
  }

  /** What is saved and loaded again is the same address book with the same key, entry for
      entry and slot for slot; only the memory-only fields are reset. */
  method SaveAndLoad(m: AddrMan, randomKey: nat) returns (m': AddrMan)
    requires m.Valid()
    ensures m'.Valid() && m'.book == SavedBook(m.book)
    ensures m'.nKey == m.nKey && m'.nNew == m.nNew && m'.nTried == m.nTried
  {
    hide Almost, Shows, Encode, SavedBook;
    var s := Serialize(m);
    m' := new AddrMan(m.h, randomKey);
    Unserialize(m', s, randomKey, m.Now(), m.book);
  }

  lemma NumberingBounds(t: Tables, order: seq<int>)
    requires Numbering(t, order)
    ensures 0 <= t.nNew && 0 <= t.nTried && |order| == t.nNew + t.nTried
  {}
}
