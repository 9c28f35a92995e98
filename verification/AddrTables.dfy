/** The address manager's tables as a value (src/addrman.h:183-221), the invariant
    that its Check_ routine spells out, and the abstract address book they stand for.

    An address book knows no ids, reference counts, counters or random order: it is
    just a set of entries and two partial tables from slots to addresses. Every table
    operation is shown to keep the invariant and to act on the book as expected. */
module AddrTables {

  const TRIED_BUCKETS: nat := 256
  const NEW_BUCKETS: nat := 1024
  const BUCKET_SIZE: nat := 64
  const TRIED_BUCKETS_PER_GROUP: nat := 8
  const NEW_BUCKETS_PER_SOURCE_GROUP: nat := 64
  const NEW_BUCKETS_PER_ADDRESS: nat := 8

  datatype NetAddr = NetAddr(ip: nat)
  datatype Service = Service(net: NetAddr, port: nat)
  datatype Slot = Slot(bucket: nat, pos: nat)

  /** The keyed hashes of src/addrman.cpp:13-32 and the address predicates they use;
      nothing is known about any of them. */
  datatype Hashes = Hashes(
    tried1: (nat, Service) -> nat,
    tried2: (nat, nat, nat) -> nat,
    new1: (nat, nat, nat) -> nat,
    new2: (nat, nat, nat) -> nat,
    position: (nat, bool, nat, Service) -> nat,
    group: NetAddr -> nat,
    routable: NetAddr -> bool)

  function BucketPosition(h: Hashes, key: nat, isNew: bool, bucket: nat, s: Service): nat {
    h.position(key, isNew, bucket, s) % BUCKET_SIZE
  }

  function TriedSlot(h: Hashes, key: nat, s: Service): Slot {
    var hash1 := h.tried1(key, s);
    var bucket := h.tried2(key, h.group(s.net), hash1 % TRIED_BUCKETS_PER_GROUP) % TRIED_BUCKETS;
    Slot(bucket, BucketPosition(h, key, false, bucket, s))
  }

  function NewSlot(h: Hashes, key: nat, s: Service, source: NetAddr): Slot {
    var sourceGroup := h.group(source);
    var hash1 := h.new1(key, h.group(s.net), sourceGroup);
    var bucket := h.new2(key, sourceGroup, hash1 % NEW_BUCKETS_PER_SOURCE_GROUP) % NEW_BUCKETS;
    Slot(bucket, BucketPosition(h, key, true, bucket, s))
  }

  /** What is known about one address, apart from where it is filed. */
  datatype Stats = Stats(
    service: Service, nServices: bv64, nTime: nat, source: NetAddr,
    nLastTry: int, nLastCountAttempt: int, nLastSuccess: int, nAttempts: int)

  /** CAddrInfo: the statistics plus the redundant filing data. */
  datatype AddrInfo = AddrInfo(stats: Stats, nRefCount: int, fInTried: bool, nRandomPos: int)

  datatype Tables = Tables(
    key: nat,
    idCount: nat,
    info: map<int, AddrInfo>,
    addr: map<NetAddr, int>,
    rnd: seq<int>,
    nTried: int,
    triedTable: map<Slot, int>,
    nNew: int,
    newTable: map<Slot, int>)

  // ----- The invariant -----

  ghost predicate IndexOk(t: Tables) {
    && (forall id :: id in t.info ==>
          && 0 <= id < t.idCount
          && t.info[id].stats.service.net in t.addr
          && t.addr[t.info[id].stats.service.net] == id)
    && (forall a :: a in t.addr ==> t.addr[a] in t.info && t.info[t.addr[a]].stats.service.net == a)
  }

  ghost predicate RandomOk(t: Tables) {
    && (forall id :: id in t.info ==>
          0 <= t.info[id].nRandomPos < |t.rnd| && t.rnd[t.info[id].nRandomPos] == id)
    && (forall i :: 0 <= i < |t.rnd| ==> t.rnd[i] in t.info && t.info[t.rnd[i]].nRandomPos == i)
  }

  ghost predicate NewOk(h: Hashes, t: Tables) {
    forall s :: s in t.newTable ==>
      && s.bucket < NEW_BUCKETS
      && t.newTable[s] in t.info
      && !t.info[t.newTable[s]].fInTried
      && s.pos == BucketPosition(h, t.key, true, s.bucket, t.info[t.newTable[s]].stats.service)
  }

  ghost predicate TriedOk(h: Hashes, t: Tables) {
    && (forall s :: s in t.triedTable ==>
          && t.triedTable[s] in t.info
          && t.info[t.triedTable[s]].fInTried
          && s == TriedSlot(h, t.key, t.info[t.triedTable[s]].stats.service))
    && (forall id :: id in t.info && t.info[id].fInTried ==>
          && TriedSlot(h, t.key, t.info[id].stats.service) in t.triedTable
          && t.triedTable[TriedSlot(h, t.key, t.info[id].stats.service)] == id)
  }

  /** The "new" slots that hold id. */
  ghost function Holders(newTable: map<Slot, int>, id: int): set<Slot> {
    set s | s in newTable && newTable[s] == id
  }

  ghost predicate RefsOk(t: Tables) {
    forall id :: id in t.info ==> t.info[id].nRefCount == |Holders(t.newTable, id)|
  }

  /** Every entry is either tried or filed in one to eight "new" slots, except for the
      floating ids, which are filed nowhere. */
  ghost predicate FiledOk(t: Tables, floating: set<int>) {
    && (forall id :: id in floating ==> id in t.info && !t.info[id].fInTried && t.info[id].nRefCount == 0)
    && (forall id :: id in t.info && !t.info[id].fInTried && id !in floating ==>
          1 <= t.info[id].nRefCount <= NEW_BUCKETS_PER_ADDRESS)
  }

  ghost function TriedIds(info: map<int, AddrInfo>): set<int> {
    set id | id in info && info[id].fInTried
  }

  ghost function NewIds(info: map<int, AddrInfo>): set<int> {
    set id | id in info && !info[id].fInTried
  }

  ghost predicate CountsOk(t: Tables, uncounted: int) {
    && t.nTried == |TriedIds(t.info)|
    && t.nNew == |NewIds(t.info)| - uncounted
  }

  /** The invariant in the middle of an operation: floating entries are filed nowhere and
      nNew lags behind by the given number of entries. */
  ghost predicate Almost(h: Hashes, t: Tables, floating: set<int>, uncounted: int) {
    && IndexOk(t)
    && RandomOk(t)
    && NewOk(h, t)
    && TriedOk(h, t)
    && RefsOk(t)
    && FiledOk(t, floating)
    && CountsOk(t, uncounted)
  }

  /** The invariant between operations: the conditions of CAddrMan::Check_. */
  ghost predicate Consistent(h: Hashes, t: Tables) {
    Almost(h, t, {}, 0)
  }

  // ----- The abstract address book -----

  datatype Book = Book(
    entries: map<NetAddr, Stats>,
    newTable: map<Slot, NetAddr>,
    triedTable: map<Slot, NetAddr>)

  /** The book that the tables stand for. */
  ghost predicate Shows(t: Tables, b: Book) {
    ShowsEntries(t, b.entries) && ShowsSlots(t, t.newTable, b.newTable) && ShowsSlots(t, t.triedTable, b.triedTable)
  }

  ghost predicate ShowsEntries(t: Tables, entries: map<NetAddr, Stats>) {
    && entries.Keys == t.addr.Keys
    && forall id :: id in t.info && t.info[id].stats.service.net in entries ==>
         entries[t.info[id].stats.service.net] == t.info[id].stats
  }

  ghost predicate ShowsSlots(t: Tables, table: map<Slot, int>, slots: map<Slot, NetAddr>) {
    && slots.Keys == table.Keys
    && forall s :: s in table && table[s] in t.info ==> slots[s] == t.info[table[s]].stats.service.net
  }

  /** Empty one "new" slot; an address that is then filed nowhere is forgotten. */
  ghost function Unfile(b: Book, s: Slot): Book {
    if s !in b.newTable then b
    else
      var newTable := b.newTable - {s};
      Book(if b.newTable[s] in newTable.Values then b.entries else b.entries - {b.newTable[s]}, newTable, b.triedTable)
  }

  ghost function UnfileAll(b: Book, a: NetAddr): Book {
    b.(newTable := map s | s in b.newTable && b.newTable[s] != a :: b.newTable[s])
  }

  /** Empty a "tried" slot: the address there goes back to the "new" slot that its own
      source selects, and what was in that slot is unfiled. */
  ghost function Demote(h: Hashes, key: nat, b: Book, slot: Slot): Book {
    if slot in b.triedTable && b.triedTable[slot] in b.entries then
      var evicted := b.triedTable[slot];
      var target := NewSlot(h, key, b.entries[evicted].service, b.entries[evicted].source);
      var u := Unfile(b.(triedTable := b.triedTable - {slot}), target);
      u.(newTable := u.newTable[target := evicted])
    else b
  }

  /** Move an address to its "tried" slot. */
  ghost function Promote(h: Hashes, key: nat, b: Book, a: NetAddr): Book
    requires a in b.entries
  {
    var slot := TriedSlot(h, key, b.entries[a].service);
    var u := Demote(h, key, UnfileAll(b, a), slot);
    u.(triedTable := u.triedTable[slot := a])
  }

  // ----- Table operations -----

  function SwapRandom(t: Tables, i: nat, j: nat): Tables
    requires i < |t.rnd| && j < |t.rnd|
    requires t.rnd[i] in t.info && t.rnd[j] in t.info
  {
    if i == j then t
    else
      var id1 := t.rnd[i];
      var id2 := t.rnd[j];
      var info1 := t.info[id1 := t.info[id1].(nRandomPos := j)];
      t.(info := info1[id2 := info1[id2].(nRandomPos := i)],
         rnd := t.rnd[i := id2][j := id1])
  }

  function Create(t: Tables, stats: Stats): Tables {
    t.(idCount := t.idCount + 1,
       info := t.info[t.idCount as int := AddrInfo(stats, 0, false, |t.rnd|)],
       addr := t.addr[stats.service.net := t.idCount],
       rnd := t.rnd + [t.idCount as int])
  }

  /** Remove one reference from the entry filed in "new" slot s. */
  function DropRef(t: Tables, s: Slot): Tables
    requires s in t.newTable && t.newTable[s] in t.info
  {
    var id := t.newTable[s];
    t.(info := t.info[id := t.info[id].(nRefCount := t.info[id].nRefCount - 1)],
       newTable := t.newTable - {s})
  }

  /** File entry id in the empty "new" slot s. */
  function TakeRef(t: Tables, s: Slot, id: int): Tables
    requires id in t.info
  {
    t.(info := t.info[id := t.info[id].(nRefCount := t.info[id].nRefCount + 1)],
       newTable := t.newTable[s := id])
  }

  /** Take the entry out of "tried" slot s. */
  function Evict(t: Tables, s: Slot): Tables
    requires s in t.triedTable && t.triedTable[s] in t.info
  {
    var id := t.triedTable[s];
    t.(info := t.info[id := t.info[id].(fInTried := false)],
       triedTable := t.triedTable - {s},
       nTried := t.nTried - 1)
  }

  /** Put entry id into the empty "tried" slot s. */
  function EnterTried(t: Tables, s: Slot, id: int): Tables
    requires id in t.info
  {
    t.(info := t.info[id := t.info[id].(fInTried := true)],
       triedTable := t.triedTable[s := id],
       nTried := t.nTried + 1)
  }

  function SetStats(t: Tables, id: int, stats: Stats): Tables
    requires id in t.info
  {
    t.(info := t.info[id := t.info[id].(stats := stats)])
  }

  // ----- Frames: what each part of the invariant depends on -----

  ghost predicate SameIds(t: Tables, u: Tables) {
    forall id :: id in u.info <==> id in t.info
  }

  ghost predicate SameNames(t: Tables, u: Tables) {
    && SameIds(t, u)
    && forall id :: id in t.info ==> u.info[id].stats.service == t.info[id].stats.service
  }

  ghost predicate SameTried(t: Tables, u: Tables) {
    SameIds(t, u) && forall id :: id in t.info ==> u.info[id].fInTried == t.info[id].fInTried
  }

  ghost predicate SamePositions(t: Tables, u: Tables) {
    SameIds(t, u) && forall id :: id in t.info ==> u.info[id].nRandomPos == t.info[id].nRandomPos
  }

  ghost predicate SameRefs(t: Tables, u: Tables) {
    SameIds(t, u) && forall id :: id in t.info ==> u.info[id].nRefCount == t.info[id].nRefCount
  }

  ghost predicate SameEntry(t: Tables, u: Tables, id: int) {
    && id in t.info && id in u.info
    && u.info[id].stats.service == t.info[id].stats.service && u.info[id].fInTried == t.info[id].fInTried
  }

  lemma FrameIndex(t: Tables, u: Tables)
    requires IndexOk(t) && SameNames(t, u) && u.addr == t.addr && u.idCount == t.idCount
    ensures IndexOk(u)
  {
    forall a | a in u.addr ensures u.addr[a] in u.info && u.info[u.addr[a]].stats.service.net == a {
      var id := t.addr[a];
      assert id in t.info && id in u.info;
    }
  }

  lemma FrameRandom(t: Tables, u: Tables)
    requires RandomOk(t) && SamePositions(t, u) && u.rnd == t.rnd
    ensures RandomOk(u)
  {
    forall i | 0 <= i < |u.rnd| ensures u.rnd[i] in u.info && u.info[u.rnd[i]].nRandomPos == i {
      var id := t.rnd[i];
      assert id in t.info && id in u.info;
    }
  }

  lemma FrameNew(h: Hashes, t: Tables, u: Tables)
    requires NewOk(h, t) && SameNames(t, u) && SameTried(t, u) && u.newTable == t.newTable && u.key == t.key
    ensures NewOk(h, u)
  {
    forall s | s in u.newTable ensures u.newTable[s] in u.info && SameEntry(t, u, u.newTable[s]) {
      var id := t.newTable[s];
      assert id in t.info && id in u.info;
    }
  }

  lemma FrameTried(h: Hashes, t: Tables, u: Tables)
    requires TriedOk(h, t) && SameNames(t, u) && SameTried(t, u) && u.triedTable == t.triedTable && u.key == t.key
    ensures TriedOk(h, u)
  {
    forall s | s in u.triedTable ensures u.triedTable[s] in u.info && SameEntry(t, u, u.triedTable[s]) {
      var id := t.triedTable[s];
      assert id in t.info && id in u.info;
    }
  }

  lemma FrameRefs(t: Tables, u: Tables)
    requires RefsOk(t) && SameRefs(t, u) && u.newTable == t.newTable
    ensures RefsOk(u)
  {}

  lemma FrameFiled(t: Tables, u: Tables, floating: set<int>)
    requires FiledOk(t, floating) && SameRefs(t, u) && SameTried(t, u)
    ensures FiledOk(u, floating)
  {}

  lemma FrameCounts(t: Tables, u: Tables, uncounted: int)
    requires CountsOk(t, uncounted) && SameTried(t, u)
    requires u.nTried == t.nTried && u.nNew == t.nNew
    ensures CountsOk(u, uncounted)
  {
    assert forall id :: id in TriedIds(u.info) <==> id in TriedIds(t.info);
    assert forall id :: id in NewIds(u.info) <==> id in NewIds(t.info);
    assert TriedIds(u.info) == TriedIds(t.info) && NewIds(u.info) == NewIds(t.info);
  }

  lemma FrameSlots(t: Tables, u: Tables, table: map<Slot, int>, slots: map<Slot, NetAddr>)
    requires ShowsSlots(t, table, slots) && SameNames(t, u)
    ensures ShowsSlots(u, table, slots)
  {
    forall s | s in table && table[s] in u.info ensures slots[s] == u.info[table[s]].stats.service.net {
      var id := table[s];
      assert id in t.info && id in u.info;
    }
  }

  // ----- Each operation keeps the invariant and acts on the book as expected -----

  lemma SwapFrame(t: Tables, i: nat, j: nat)
    requires i < |t.rnd| && j < |t.rnd|
    requires t.rnd[i] in t.info && t.rnd[j] in t.info
    ensures var u := SwapRandom(t, i, j);
            SameNames(t, u) && SameTried(t, u) && SameRefs(t, u) && t.(info := u.info, rnd := u.rnd) == u
  {}

  lemma SwapKeepsRandomOk(t: Tables, i: nat, j: nat)
    requires RandomOk(t) && i < |t.rnd| && j < |t.rnd|
    ensures RandomOk(SwapRandom(t, i, j))
  {}

  /** Exchanging the same two positions again restores the tables. */
  lemma SwapTwice(t: Tables, i: nat, j: nat)
    requires RandomOk(t) && i < |t.rnd| && j < |t.rnd|
    ensures SwapRandom(SwapRandom(t, i, j), i, j) == t
  {
    if i != j {
      MovedTwice(t.info, t.rnd[i], t.rnd[j], i, j);
      ExchangedTwice(t.rnd, i, j);
    }
  }

  lemma MovedTwice(info: map<int, AddrInfo>, id1: int, id2: int, i: int, j: int)
    requires id1 != id2 && id1 in info && id2 in info && info[id1].nRandomPos == i && info[id2].nRandomPos == j
    ensures var a := info[id1 := info[id1].(nRandomPos := j)];
            var b := a[id2 := a[id2].(nRandomPos := i)];
            var c := b[id2 := b[id2].(nRandomPos := j)];
            c[id1 := c[id1].(nRandomPos := i)] == info
  {}

  lemma ExchangedTwice(s: seq<int>, i: nat, j: nat)
    requires i < |s| && j < |s| && i != j
    ensures var u := s[i := s[j]][j := s[i]]; u[i] == s[j] && u[j] == s[i] && u[i := u[j]][j := u[i]] == s
  {}

  lemma SwapShows(t: Tables, i: nat, j: nat, entries: map<NetAddr, Stats>)
    requires i < |t.rnd| && j < |t.rnd|
    requires t.rnd[i] in t.info && t.rnd[j] in t.info
    requires ShowsEntries(t, entries)
    ensures ShowsEntries(SwapRandom(t, i, j), entries)
  {}

  lemma SwapKeeps(h: Hashes, t: Tables, i: nat, j: nat, floating: set<int>, uncounted: int, b: Book)
    requires Almost(h, t, floating, uncounted) && Shows(t, b)
    requires i < |t.rnd| && j < |t.rnd|
    ensures Almost(h, SwapRandom(t, i, j), floating, uncounted) && Shows(SwapRandom(t, i, j), b)
  {
    SwapFrame(t, i, j);
    SwapKeepsRandomOk(t, i, j);
    SwapShows(t, i, j, b.entries);
    FilingKeeps(h, t, SwapRandom(t, i, j), floating, uncounted, b);
  }

  lemma FilingKeeps(h: Hashes, t: Tables, u: Tables, floating: set<int>, uncounted: int, b: Book)
    requires Almost(h, t, floating, uncounted) && Shows(t, b)
    requires SameNames(t, u) && SameTried(t, u) && SameRefs(t, u) && t.(info := u.info, rnd := u.rnd) == u
    requires RandomOk(u) && ShowsEntries(u, b.entries)
    ensures Almost(h, u, floating, uncounted) && Shows(u, b)
  {
    FrameIndex(t, u);
    FrameNew(h, t, u);
    FrameTried(h, t, u);
    FrameRefs(t, u);
    FrameFiled(t, u, floating);
    FrameCounts(t, u, uncounted);
    FrameSlots(t, u, t.newTable, b.newTable);
    FrameSlots(t, u, t.triedTable, b.triedTable);
  }

  lemma SetStatsFrame(t: Tables, id: int, stats: Stats)
    requires id in t.info && stats.service == t.info[id].stats.service
    ensures var u := SetStats(t, id, stats);
            SameNames(t, u) && SameTried(t, u) && SameRefs(t, u) && SamePositions(t, u)
  {}

  lemma SetStatsShows(t: Tables, id: int, stats: Stats, entries: map<NetAddr, Stats>)
    requires IndexOk(t) && ShowsEntries(t, entries)
    requires id in t.info && stats.service == t.info[id].stats.service
    ensures ShowsEntries(SetStats(t, id, stats), entries[stats.service.net := stats])
  {}

  lemma SetStatsKeeps(h: Hashes, t: Tables, id: int, stats: Stats, floating: set<int>, uncounted: int, b: Book)
    requires Almost(h, t, floating, uncounted) && Shows(t, b)
    requires id in t.info && stats.service == t.info[id].stats.service
    ensures Almost(h, SetStats(t, id, stats), floating, uncounted)
    ensures Shows(SetStats(t, id, stats), b.(entries := b.entries[stats.service.net := stats]))
  {
    var u := SetStats(t, id, stats);
    SetStatsFrame(t, id, stats);
    SetStatsShows(t, id, stats, b.entries);
    FrameIndex(t, u);
    FrameRandom(t, u);
    FrameNew(h, t, u);
    FrameTried(h, t, u);
    FrameRefs(t, u);
    FrameFiled(t, u, floating);
    FrameCounts(t, u, uncounted);
    FrameSlots(t, u, t.newTable, b.newTable);
    FrameSlots(t, u, t.triedTable, b.triedTable);
  }

  // Creating an entry

  lemma CreateIndexes(t: Tables, stats: Stats)
    requires IndexOk(t) && stats.service.net !in t.addr
    ensures IndexOk(Create(t, stats))
  {}

  lemma CreateRandom(t: Tables, stats: Stats)
    requires IndexOk(t) && RandomOk(t)
    ensures RandomOk(Create(t, stats))
  {}

  lemma CreateShows(t: Tables, stats: Stats, entries: map<NetAddr, Stats>)
    requires IndexOk(t) && ShowsEntries(t, entries) && stats.service.net !in t.addr
    ensures ShowsEntries(Create(t, stats), entries[stats.service.net := stats])
  {}

  lemma CreateFiling(h: Hashes, t: Tables, stats: Stats)
    requires IndexOk(t) && NewOk(h, t) && TriedOk(h, t) && RefsOk(t) && FiledOk(t, {})
    ensures var u := Create(t, stats);
            NewOk(h, u) && TriedOk(h, u) && RefsOk(u) && FiledOk(u, {t.idCount as int})
  {
    assert Holders(t.newTable, t.idCount) == {};
  }

  lemma CreateCounts(t: Tables, stats: Stats)
    requires IndexOk(t) && CountsOk(t, 0)
    ensures CountsOk(Create(t, stats), 1)
  {
    var u := Create(t, stats);
    var id: int := t.idCount;
    assert TriedIds(u.info) == TriedIds(t.info);
    assert NewIds(u.info) == NewIds(t.info) + {id};
    assert id !in NewIds(t.info);
  }

  lemma CreateSlots(t: Tables, stats: Stats, table: map<Slot, int>, slots: map<Slot, NetAddr>)
    requires IndexOk(t) && ShowsSlots(t, table, slots)
    requires forall s :: s in table ==> table[s] in t.info
    ensures ShowsSlots(Create(t, stats), table, slots)
  {}

  lemma CreateKeeps(h: Hashes, t: Tables, stats: Stats, b: Book)
    requires Consistent(h, t) && Shows(t, b)
    requires stats.service.net !in t.addr
    ensures Almost(h, Create(t, stats), {t.idCount as int}, 1)
    ensures Shows(Create(t, stats), b.(entries := b.entries[stats.service.net := stats]))
  {
    CreateIndexes(t, stats);
    CreateRandom(t, stats);
    CreateShows(t, stats, b.entries);
    CreateFiling(h, t, stats);
    CreateCounts(t, stats);
    CreateSlots(t, stats, t.newTable, b.newTable);
    CreateSlots(t, stats, t.triedTable, b.triedTable);
  }

  // Deleting an entry that is filed nowhere

  function DropLast(t: Tables, id: int): Tables
    requires id in t.info && |t.rnd| > 0
  {
    t.(rnd := t.rnd[..|t.rnd| - 1], addr := t.addr - {t.info[id].stats.service.net},
       info := t.info - {id}, nNew := t.nNew - 1)
  }

  lemma DropLastIndexes(t: Tables, id: int, entries: map<NetAddr, Stats>)
    requires IndexOk(t) && ShowsEntries(t, entries) && id in t.info && |t.rnd| > 0
    ensures IndexOk(DropLast(t, id))
    ensures ShowsEntries(DropLast(t, id), entries - {t.info[id].stats.service.net})
  {}

  lemma DropLastRandom(t: Tables, id: int)
    requires RandomOk(t) && id in t.info && |t.rnd| > 0 && t.rnd[|t.rnd| - 1] == id
    ensures RandomOk(DropLast(t, id))
  {}

  lemma DropLastRefs(t: Tables, id: int, floating: set<int>)
    requires RefsOk(t) && FiledOk(t, floating) && id in floating && |t.rnd| > 0
    ensures RefsOk(DropLast(t, id)) && FiledOk(DropLast(t, id), floating - {id})
    ensures forall s :: s in t.newTable ==> t.newTable[s] != id
  {
    assert Holders(t.newTable, id) == {};
    forall s | s in t.newTable ensures t.newTable[s] != id {
      assert s !in Holders(t.newTable, id);
    }
  }

  lemma DropLastFiling(h: Hashes, t: Tables, id: int)
    requires NewOk(h, t) && TriedOk(h, t) && id in t.info && !t.info[id].fInTried && |t.rnd| > 0
    requires forall s :: s in t.newTable ==> t.newTable[s] != id
    ensures NewOk(h, DropLast(t, id)) && TriedOk(h, DropLast(t, id))
  {}

  lemma DropLastCounts(t: Tables, id: int, uncounted: int)
    requires CountsOk(t, uncounted)
    requires id in t.info && !t.info[id].fInTried && |t.rnd| > 0
    ensures CountsOk(DropLast(t, id), uncounted)
  {
    var u := DropLast(t, id);
    assert TriedIds(u.info) == TriedIds(t.info);
    assert NewIds(u.info) == NewIds(t.info) - {id};
    assert id in NewIds(t.info);
  }

  lemma DropLastSlots(t: Tables, id: int, table: map<Slot, int>, slots: map<Slot, NetAddr>)
    requires ShowsSlots(t, table, slots) && id in t.info && |t.rnd| > 0
    ensures ShowsSlots(DropLast(t, id), table, slots)
  {}

  lemma DropLastKeeps(h: Hashes, t: Tables, id: int, floating: set<int>, uncounted: int, b: Book)
    requires Almost(h, t, floating, uncounted) && Shows(t, b)
    requires id in floating && |t.rnd| > 0 && t.rnd[|t.rnd| - 1] == id
    ensures Almost(h, DropLast(t, id), floating - {id}, uncounted)
    ensures Shows(DropLast(t, id), b.(entries := b.entries - {t.info[id].stats.service.net}))
  {
    DropLastIndexes(t, id, b.entries);
    DropLastRandom(t, id);
    DropLastRefs(t, id, floating);
    DropLastFiling(h, t, id);
    DropLastCounts(t, id, uncounted);
    DropLastSlots(t, id, t.newTable, b.newTable);
    DropLastSlots(t, id, t.triedTable, b.triedTable);
  }

  // Removing and adding references

  lemma DropRefFrame(h: Hashes, t: Tables, s: Slot, entries: map<NetAddr, Stats>)
    requires NewOk(h, t) && ShowsEntries(t, entries)
    requires s in t.newTable
    ensures var u := DropRef(t, s);
            && SameNames(t, u) && SameTried(t, u) && SamePositions(t, u)
            && NewOk(h, u) && ShowsEntries(u, entries)
  {}

  lemma DropRefRefs(h: Hashes, t: Tables, s: Slot, floating: set<int>)
    requires NewOk(h, t) && RefsOk(t) && FiledOk(t, floating)
    requires s in t.newTable
    ensures t.newTable[s] !in floating && t.info[t.newTable[s]].nRefCount > 0
    ensures RefsOk(DropRef(t, s))
  {
    var id := t.newTable[s];
    var u := DropRef(t, s);
    assert s in Holders(t.newTable, id);
    assert Holders(u.newTable, id) == Holders(t.newTable, id) - {s};
    forall x | x in u.info && x != id ensures Holders(u.newTable, x) == Holders(t.newTable, x) {}
  }

  lemma DropRefFiled(t: Tables, s: Slot, floating: set<int>)
    requires FiledOk(t, floating)
    requires s in t.newTable && t.newTable[s] in t.info && !t.info[t.newTable[s]].fInTried
    requires t.newTable[s] !in floating && t.info[t.newTable[s]].nRefCount > 0
    ensures var u := DropRef(t, s);
            FiledOk(u, if u.info[t.newTable[s]].nRefCount == 0 then floating + {t.newTable[s]} else floating)
  {}

  lemma DropRefSlots(h: Hashes, t: Tables, s: Slot, b: Book)
    requires Shows(t, b) && s in t.newTable && t.newTable[s] in t.info
    ensures var u := DropRef(t, s);
            && ShowsSlots(u, u.newTable, b.newTable - {s})
            && ShowsSlots(u, u.triedTable, b.triedTable)
  {}

  lemma DropRefKeeps(h: Hashes, t: Tables, s: Slot, floating: set<int>, uncounted: int, b: Book)
    requires Almost(h, t, floating, uncounted) && Shows(t, b)
    requires s in t.newTable
    ensures t.newTable[s] !in floating && t.info[t.newTable[s]].nRefCount > 0
    ensures var u := DropRef(t, s);
            && Almost(h, u, if u.info[t.newTable[s]].nRefCount == 0 then floating + {t.newTable[s]} else floating,
                      uncounted)
            && Shows(u, b.(newTable := b.newTable - {s}))
            && (u.info[t.newTable[s]].nRefCount == 0 <==> b.newTable[s] !in (b.newTable - {s}).Values)
  {
    var u := DropRef(t, s);
    DropRefFrame(h, t, s, b.entries);
    DropRefRefs(h, t, s, floating);
    DropRefFiled(t, s, floating);
    DropRefSlots(h, t, s, b);
    FrameIndex(t, u);
    FrameRandom(t, u);
    FrameTried(h, t, u);
    FrameCounts(t, u, uncounted);
    NoHolderIffNotFiled(h, u, t.newTable[s], b.newTable - {s});
  }

  /** Slots name addresses, the tables name ids: by the index they mean the same entry. */
  lemma NoHolderIffNotFiled(h: Hashes, t: Tables, id: int, slots: map<Slot, NetAddr>)
    requires IndexOk(t) && NewOk(h, t) && RefsOk(t) && ShowsSlots(t, t.newTable, slots) && id in t.info
    ensures t.info[id].nRefCount == 0 <==> t.info[id].stats.service.net !in slots.Values
  {
    var a := t.info[id].stats.service.net;
    if s :| s in Holders(t.newTable, id) {
      assert slots[s] == a;
    } else {
      assert Holders(t.newTable, id) == {};
      forall s | s in slots ensures slots[s] != a {
        assert t.newTable[s] != id by { assert s !in Holders(t.newTable, id); }
      }
    }
  }

  lemma TakeRefFrame(t: Tables, s: Slot, id: int, b: Book)
    requires Shows(t, b) && id in t.info
    ensures var u := TakeRef(t, s, id);
            && SameNames(t, u) && SameTried(t, u) && SamePositions(t, u)
            && ShowsEntries(u, b.entries)
            && ShowsSlots(u, u.newTable, b.newTable[s := t.info[id].stats.service.net])
  {}

  lemma TakeRefNew(h: Hashes, t: Tables, s: Slot, id: int)
    requires NewOk(h, t) && s.bucket < NEW_BUCKETS
    requires id in t.info && !t.info[id].fInTried
    requires s.pos == BucketPosition(h, t.key, true, s.bucket, t.info[id].stats.service)
    ensures NewOk(h, TakeRef(t, s, id))
  {}

  lemma TakeRefRefs(t: Tables, s: Slot, id: int)
    requires RefsOk(t) && s !in t.newTable && id in t.info
    ensures RefsOk(TakeRef(t, s, id))
  {
    var u := TakeRef(t, s, id);
    assert Holders(u.newTable, id) == Holders(t.newTable, id) + {s};
    assert s !in Holders(t.newTable, id);
    forall x | x in u.info && x != id ensures Holders(u.newTable, x) == Holders(t.newTable, x) {}
  }

  lemma TakeRefFiled(t: Tables, s: Slot, id: int, floating: set<int>)
    requires FiledOk(t, floating) && id in t.info && 0 <= t.info[id].nRefCount < NEW_BUCKETS_PER_ADDRESS
    ensures FiledOk(TakeRef(t, s, id), floating - {id})
  {}

  lemma TakeRefKeeps(h: Hashes, t: Tables, s: Slot, id: int, floating: set<int>, uncounted: int, b: Book)
    requires Almost(h, t, floating, uncounted) && Shows(t, b)
    requires s !in t.newTable && s.bucket < NEW_BUCKETS
    requires id in t.info && !t.info[id].fInTried && t.info[id].nRefCount < NEW_BUCKETS_PER_ADDRESS
    requires s.pos == BucketPosition(h, t.key, true, s.bucket, t.info[id].stats.service)
    ensures Almost(h, TakeRef(t, s, id), floating - {id}, uncounted)
    ensures Shows(TakeRef(t, s, id), b.(newTable := b.newTable[s := t.info[id].stats.service.net]))
  {
    var u := TakeRef(t, s, id);
    TakeRefFrame(t, s, id, b);
    TakeRefNew(h, t, s, id);
    TakeRefRefs(t, s, id);
    TakeRefFiled(t, s, id, floating);
    FrameIndex(t, u);
    FrameRandom(t, u);
    FrameTried(h, t, u);
    FrameCounts(t, u, uncounted);
    FrameSlots(t, u, t.triedTable, b.triedTable);
  }

  // Leaving and entering the "tried" table

  lemma EvictFrame(t: Tables, s: Slot, b: Book)
    requires Shows(t, b) && s in t.triedTable && t.triedTable[s] in t.info
    ensures var u := Evict(t, s);
            && SameNames(t, u) && SameRefs(t, u) && SamePositions(t, u)
            && ShowsEntries(u, b.entries)
            && ShowsSlots(u, u.triedTable, b.triedTable - {s})
  {}

  lemma EvictFiling(h: Hashes, t: Tables, s: Slot, floating: set<int>)
    requires NewOk(h, t) && TriedOk(h, t) && RefsOk(t) && FiledOk(t, floating)
    requires s in t.triedTable
    ensures t.triedTable[s] !in floating
    ensures NewOk(h, Evict(t, s)) && TriedOk(h, Evict(t, s)) && FiledOk(Evict(t, s), floating + {t.triedTable[s]})
  {
    assert Holders(t.newTable, t.triedTable[s]) == {};
  }

  lemma EvictCounts(t: Tables, s: Slot, uncounted: int)
    requires CountsOk(t, uncounted)
    requires s in t.triedTable && t.triedTable[s] in t.info && t.info[t.triedTable[s]].fInTried
    ensures CountsOk(Evict(t, s), uncounted + 1)
  {
    var id := t.triedTable[s];
    var u := Evict(t, s);
    assert TriedIds(u.info) == TriedIds(t.info) - {id};
    assert id in TriedIds(t.info);
    assert NewIds(u.info) == NewIds(t.info) + {id};
    assert id !in NewIds(t.info);
  }

  lemma EvictKeeps(h: Hashes, t: Tables, s: Slot, floating: set<int>, uncounted: int, b: Book)
    requires Almost(h, t, floating, uncounted) && Shows(t, b)
    requires s in t.triedTable
    ensures t.triedTable[s] !in floating
    ensures Almost(h, Evict(t, s), floating + {t.triedTable[s]}, uncounted + 1)
    ensures Shows(Evict(t, s), b.(triedTable := b.triedTable - {s}))
  {
    var u := Evict(t, s);
    EvictFrame(t, s, b);
    EvictFiling(h, t, s, floating);
    EvictCounts(t, s, uncounted);
    FrameIndex(t, u);
    FrameRandom(t, u);
    FrameRefs(t, u);
    FrameSlots(t, u, t.newTable, b.newTable);
  }

  lemma EnterTriedFrame(t: Tables, s: Slot, id: int, b: Book)
    requires Shows(t, b) && id in t.info
    ensures var u := EnterTried(t, s, id);
            && SameNames(t, u) && SameRefs(t, u) && SamePositions(t, u)
            && ShowsEntries(u, b.entries)
            && ShowsSlots(u, u.triedTable, b.triedTable[s := t.info[id].stats.service.net])
  {}

  lemma EnterTriedNew(h: Hashes, t: Tables, s: Slot, id: int, floating: set<int>)
    requires NewOk(h, t) && RefsOk(t) && FiledOk(t, floating) && id in floating
    ensures NewOk(h, EnterTried(t, s, id))
  {
    assert Holders(t.newTable, id) == {};
    assert forall x :: x in t.newTable && t.newTable[x] == id ==> x in Holders(t.newTable, id);
  }

  lemma EnterTriedTried(h: Hashes, t: Tables, s: Slot, id: int, floating: set<int>)
    requires TriedOk(h, t) && FiledOk(t, floating)
    requires id in floating && s == TriedSlot(h, t.key, t.info[id].stats.service) && s !in t.triedTable
    ensures TriedOk(h, EnterTried(t, s, id)) && FiledOk(EnterTried(t, s, id), floating - {id})
  {
  }

  lemma EnterTriedCounts(t: Tables, s: Slot, id: int, uncounted: int)
    requires CountsOk(t, uncounted) && id in t.info && !t.info[id].fInTried
    ensures CountsOk(EnterTried(t, s, id), uncounted - 1)
  {
    var u := EnterTried(t, s, id);
    assert TriedIds(u.info) == TriedIds(t.info) + {id};
    assert id !in TriedIds(t.info);
    assert NewIds(u.info) == NewIds(t.info) - {id};
    assert id in NewIds(t.info);
  }

  lemma EnterTriedKeeps(h: Hashes, t: Tables, s: Slot, id: int, floating: set<int>, uncounted: int, b: Book)
    requires Almost(h, t, floating, uncounted) && Shows(t, b)
    requires id in floating && s == TriedSlot(h, t.key, t.info[id].stats.service) && s !in t.triedTable
    ensures Almost(h, EnterTried(t, s, id), floating - {id}, uncounted - 1)
    ensures Shows(EnterTried(t, s, id), b.(triedTable := b.triedTable[s := t.info[id].stats.service.net]))
  {
    var u := EnterTried(t, s, id);
    EnterTriedFrame(t, s, id, b);
    EnterTriedNew(h, t, s, id, floating);
    EnterTriedTried(h, t, s, id, floating);
    EnterTriedCounts(t, s, id, uncounted);
    FrameIndex(t, u);
    FrameRandom(t, u);
    FrameRefs(t, u);
    FrameSlots(t, u, t.newTable, b.newTable);
  }
}
