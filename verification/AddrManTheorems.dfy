/** What the invariant of the address manager means: for the address book, for the counters
    and for the promise of src/addrman.h:117-137 that neither one group of addresses nor one
    group of sources can take over a table. */
module AddrManTheorems {
  import opened AddrTables
  import opened AddrMan
  import opened Counting
  import opened Powers

  // ----- Every address is filed in exactly one way -----

  /** An address is either tried, in the one slot its key selects, or filed in one to eight
      "new" slots, at the position its key selects in each bucket. */
  ghost predicate WellFiled(h: Hashes, key: nat, b: Book) {
    && (forall s :: s in b.newTable ==>
          && b.newTable[s] in b.entries && b.newTable[s] !in b.triedTable.Values
          && s.bucket < NEW_BUCKETS
          && s.pos == BucketPosition(h, key, true, s.bucket, b.entries[b.newTable[s]].service))
    && (forall s :: s in b.triedTable ==>
          b.triedTable[s] in b.entries && s == TriedSlot(h, key, b.entries[b.triedTable[s]].service))
    && (forall a :: a in b.entries ==>
          b.entries[a].service.net == a &&
            (a !in b.triedTable.Values ==> 1 <= |SlotsOf(b, a)| <= 8))
  }

  lemma ConsistentIsWellFiled(h: Hashes, t: Tables, b: Book)
    requires Consistent(h, t) && Shows(t, b)
    ensures WellFiled(h, t.key, b)
  {
    hide Almost, Shows;
    forall s | s in b.newTable
      ensures b.newTable[s] in b.entries && b.newTable[s] !in b.triedTable.Values && s.bucket < NEW_BUCKETS
              && s.pos == BucketPosition(h, t.key, true, s.bucket, b.entries[b.newTable[s]].service)
    {
      NewWhere(h, t, s, b);
    }
    forall s | s in b.triedTable
      ensures b.triedTable[s] in b.entries && s == TriedSlot(h, t.key, b.entries[b.triedTable[s]].service)
    {
      TriedWhere(h, t, s, b);
    }
    forall a | a in b.entries
      ensures b.entries[a].service.net == a
      ensures a !in b.triedTable.Values ==> 1 <= |SlotsOf(b, a)| <= 8
    {
      EntryFiled(h, t, a, b);
    }
  }

  lemma NewWhere(h: Hashes, t: Tables, s: Slot, b: Book)
    requires Consistent(h, t) && Shows(t, b) && s in b.newTable
    ensures b.newTable[s] in b.entries && b.newTable[s] !in b.triedTable.Values && s.bucket < NEW_BUCKETS
    ensures s.pos == BucketPosition(h, t.key, true, s.bucket, b.entries[b.newTable[s]].service)
  {
    hide Almost, Shows;
    ShownSlots(t, b);
    FiledFacts(h, t, s, {}, 0, b);
    var id := t.newTable[s];
    EntryFacts(h, t, id, {}, 0, b);
    FiledWhere(h, t, s, id, {}, 0, b);
    RefCountShown(h, t, id, {}, 0, b);
  }

  lemma EntryFiled(h: Hashes, t: Tables, a: NetAddr, b: Book)
    requires Consistent(h, t) && Shows(t, b) && a in b.entries
    ensures b.entries[a].service.net == a
    ensures a !in b.triedTable.Values ==> 1 <= |SlotsOf(b, a)| <= 8
  {
    hide Almost, Shows;
    var i := ListedSomewhere(h, t, a, b);
    RandomFacts(h, t, i, b);
    EntryNamed(h, t, a, b);
    EntryFacts(h, t, t.rnd[i], {}, 0, b);
    RefCountShown(h, t, t.rnd[i], {}, 0, b);
  }

  lemma EntryNamed(h: Hashes, t: Tables, a: NetAddr, b: Book)
    requires Consistent(h, t) && Shows(t, b) && a in b.entries
    ensures b.entries[a].service.net == a
  {
    var id := t.addr[a];
    assert id in t.info;
  }

  lemma TriedWhere(h: Hashes, t: Tables, s: Slot, b: Book)
    requires Consistent(h, t) && Shows(t, b) && s in b.triedTable
    ensures b.triedTable[s] in b.entries && s == TriedSlot(h, t.key, b.entries[b.triedTable[s]].service)
  {
    var id := t.triedTable[s];
    assert id in t.info;
    EntryFacts(h, t, id, {}, 0, b);
  }

  // ----- The slots in terms of the hashes -----

  /** x is r modulo m, said without division. */
  ghost predicate Leaves(x: nat, m: nat, r: nat) {
    r < m && exists q: nat {:trigger m * q} :: x == m * q + r
  }

  lemma LeavesExactly(x: nat, m: nat, r: nat)
    requires m > 0
    ensures Leaves(x, m, r) <==> x % m == r
  {
    if Leaves(x, m, r) {
      var q: nat :| r < m && x == m * q + r;
      DivModUnique(x, m, q, r);
    }
    var quotient: nat := x / m;
    assert x == m * quotient + x % m;
  }

  /** Which "new" slot an announcement selects: the groups of the address and of the source
      choose one of 64 numbers, that number and the group of the source choose the bucket, and
      within it the whole address and port choose the position. */
  lemma NewSlotExactly(h: Hashes, key: nat, s: Service, source: NetAddr, slot: Slot)
    ensures slot == NewSlot(h, key, s, source) <==>
              && (exists i: nat :: Leaves(h.new1(key, h.group(s.net), h.group(source)), 64, i)
                                   && Leaves(h.new2(key, h.group(source), i), 1024, slot.bucket))
              && Leaves(h.position(key, true, slot.bucket, s), 64, slot.pos)
  {
    var hash1 := h.new1(key, h.group(s.net), h.group(source));
    LeavesExactly(hash1, 64, hash1 % 64);
    LeavesExactly(h.new2(key, h.group(source), hash1 % 64), 1024, slot.bucket);
    LeavesExactly(h.position(key, true, slot.bucket, s), 64, slot.pos);
    forall i: nat | Leaves(hash1, 64, i) ensures i == hash1 % 64 { LeavesExactly(hash1, 64, i); }
  }

  /** Which "tried" slot an address has: one of eight numbers, chosen by the whole address and
      port, and the group of the address choose the bucket. */
  lemma TriedSlotExactly(h: Hashes, key: nat, s: Service, slot: Slot)
    ensures slot == TriedSlot(h, key, s) <==>
              && (exists i: nat :: Leaves(h.tried1(key, s), 8, i)
                                   && Leaves(h.tried2(key, h.group(s.net), i), 256, slot.bucket))
              && Leaves(h.position(key, false, slot.bucket, s), 64, slot.pos)
  {
    var hash1 := h.tried1(key, s);
    LeavesExactly(hash1, 8, hash1 % 8);
    LeavesExactly(h.tried2(key, h.group(s.net), hash1 % 8), 256, slot.bucket);
    LeavesExactly(h.position(key, false, slot.bucket, s), 64, slot.pos);
    forall i: nat | Leaves(hash1, 8, i) ensures i == hash1 % 8 { LeavesExactly(hash1, 8, i); }
  }

  // ----- A group reaches only a few buckets -----

  /** The first n values of a hash, modulo the number of buckets. */
  ghost function Reachable(hash: nat -> nat, buckets: nat, n: nat): set<nat>
    requires buckets > 0
  {
    if n == 0 then {} else Reachable(hash, buckets, n - 1) + {hash(n - 1) % buckets}
  }

  lemma {:induction false} ReachableBound(hash: nat -> nat, buckets: nat, n: nat)
    requires buckets > 0
    ensures |Reachable(hash, buckets, n)| <= n
    ensures forall i :: 0 <= i < n ==> hash(i) % buckets in Reachable(hash, buckets, n)
  {
    if n > 0 {
      ReachableBound(hash, buckets, n - 1);
    }
  }

  /** The buckets that the second hash of GetTriedBucket can select for a group. */
  ghost function TriedBuckets(h: Hashes, key: nat, group: nat): set<nat> {
    Reachable(i => h.tried2(key, group, i), TRIED_BUCKETS, TRIED_BUCKETS_PER_GROUP)
  }

  lemma TriedBucketsBound(h: Hashes, key: nat, group: nat)
    ensures |TriedBuckets(h, key, group)| <= 8
    ensures forall i :: 0 <= i < 8 ==> h.tried2(key, group, i) % 256 in TriedBuckets(h, key, group)
  {
    hide Reachable;
    var hash := i => h.tried2(key, group, i);
    ReachableBound(hash, TRIED_BUCKETS, TRIED_BUCKETS_PER_GROUP);
    assert forall i: nat {:trigger h.tried2(key, group, i)} :: hash(i) == h.tried2(key, group, i);
  }

  /** The buckets that the second hash of GetNewBucket can select for a group of sources. */
  ghost function NewBuckets(h: Hashes, key: nat, group: nat): set<nat> {
    Reachable(i => h.new2(key, group, i), NEW_BUCKETS, NEW_BUCKETS_PER_SOURCE_GROUP)
  }

  lemma NewBucketsBound(h: Hashes, key: nat, group: nat)
    ensures |NewBuckets(h, key, group)| <= 64
    ensures forall i :: 0 <= i < 64 ==> h.new2(key, group, i) % 1024 in NewBuckets(h, key, group)
  {
    hide Reachable;
    var hash := i => h.new2(key, group, i);
    ReachableBound(hash, NEW_BUCKETS, NEW_BUCKETS_PER_SOURCE_GROUP);
    assert forall i: nat {:trigger h.new2(key, group, i)} :: hash(i) == h.new2(key, group, i);
  }

  ghost function BucketsOfGroup(h: Hashes, b: Book, group: nat): set<nat> {
    set s | s in b.triedTable && h.group(b.triedTable[s]) == group :: s.bucket
  }

  /** In every consistent state, the tried addresses of one group lie in at most eight of
      the 256 buckets. */
  lemma GroupStaysInFewBuckets(h: Hashes, key: nat, b: Book, group: nat)
    requires WellFiled(h, key, b)
    ensures |BucketsOfGroup(h, b, group)| <= 8
  {
    hide TriedBuckets;
    TriedBucketsBound(h, key, group);
    forall bucket | bucket in BucketsOfGroup(h, b, group)
      ensures bucket in TriedBuckets(h, key, group)
    {
      var s :| s in b.triedTable && h.group(b.triedTable[s]) == group && s.bucket == bucket;
      var service := b.entries[b.triedTable[s]].service;
      assert service.net == b.triedTable[s];
      var i := h.tried1(key, service) % TRIED_BUCKETS_PER_GROUP;
      assert bucket == h.tried2(key, group, i) % TRIED_BUCKETS;
    }
    SubsetCount(BucketsOfGroup(h, b, group), TriedBuckets(h, key, group));
  }

  /** However many addresses a group of sources announces, the slots that they select lie in
      at most 64 of the 1024 buckets. */
  lemma SourceReachesFewBuckets(h: Hashes, key: nat, source: NetAddr, services: set<Service>)
    ensures forall s :: s in services ==> NewSlot(h, key, s, source).bucket in NewBuckets(h, key, h.group(source))
    ensures |set s | s in services :: NewSlot(h, key, s, source).bucket| <= 64
  {
    hide NewBuckets;
    NewBucketsBound(h, key, h.group(source));
    forall s | s in services ensures NewSlot(h, key, s, source).bucket in NewBuckets(h, key, h.group(source)) {
      SelectedBucket(h, key, s, source);
    }
    SubsetCount(set s | s in services :: NewSlot(h, key, s, source).bucket, NewBuckets(h, key, h.group(source)));
  }

  lemma SelectedBucket(h: Hashes, key: nat, s: Service, source: NetAddr)
    ensures NewSlot(h, key, s, source).bucket in NewBuckets(h, key, h.group(source))
  {
    hide NewBuckets;
    NewBucketsBound(h, key, h.group(source));
    var i := h.new1(key, h.group(s.net), h.group(source)) % NEW_BUCKETS_PER_SOURCE_GROUP;
    assert NewSlot(h, key, s, source).bucket == h.new2(key, h.group(source), i) % NEW_BUCKETS;
  }

  /** The "new" slots whose content differs. */
  ghost predicate Set(was: Book, now: Book, s: Slot) {
    s in now.newTable && (s !in was.newTable || was.newTable[s] != now.newTable[s])
  }

  /** Announcing an address writes nothing but that address, and only into a bucket that its
      source can reach. */
  lemma AddSets(h: Hashes, key: nat, b: Book, addr: Address, source: NetAddr, penalty: int, now: int, random: nat,
                s: Slot)
    requires WellFiled(h, key, b) && Set(b, AddToBook(h, key, b, addr, source, penalty, now, random), s)
    ensures AddToBook(h, key, b, addr, source, penalty, now, random).newTable[s] == addr.service.net
    ensures s.bucket in NewBuckets(h, key, h.group(source))
  {
    hide NewBuckets, FileNew, NewSlot;
    var a := addr.service.net;
    var pen := if a == source then 0 else penalty;
    var stats := if a in b.entries then Refreshed(b.entries[a], addr, pen, now) else NewStats(addr, source, pen);
    var b1 := b.(entries := b.entries[a := stats]);
    if Set(b1, FileNew(h, key, b1, a, source, now), s) { FileNewSets(h, key, b1, a, source, now, s); }
    SelectedBucket(h, key, stats.service, source);
  }

  lemma FileNewSets(h: Hashes, key: nat, b: Book, a: NetAddr, source: NetAddr, now: int, s: Slot)
    requires a in b.entries && Set(b, FileNew(h, key, b, a, source, now), s)
    ensures FileNew(h, key, b, a, source, now).newTable[s] == a
    ensures s == NewSlot(h, key, b.entries[a].service, source)
  {}

  lemma DemoteSets(h: Hashes, key: nat, b: Book, slot: Slot, s: Slot)
    requires Set(b, Demote(h, key, b, slot), s)
    ensures slot in b.triedTable && b.triedTable[slot] in b.entries
    ensures var a := b.triedTable[slot];
            Demote(h, key, b, slot).newTable[s] == a && s == NewSlot(h, key, b.entries[a].service, b.entries[a].source)
  {}

  /** Marking an address good writes only the address that loses its "tried" slot, and only
      into a bucket that the recorded source of that address can reach. */
  lemma GoodSets(h: Hashes, key: nat, b: Book, service: Service, time: int, s: Slot)
    requires WellFiled(h, key, b) && Set(b, GoodInBook(h, key, b, service, time), s)
    ensures var a := GoodInBook(h, key, b, service, time).newTable[s];
            && a in b.entries && s.bucket in NewBuckets(h, key, h.group(b.entries[a].source))
            && TriedSlot(h, key, service) in b.triedTable && b.triedTable[TriedSlot(h, key, service)] == a
  {
    hide NewBuckets, Demote, NewSlot, TriedSlot;
    var slot := TriedSlot(h, key, service);
    var stats := b.entries[service.net].(nLastSuccess := time, nLastTry := time, nAttempts := 0);
    var b1 := UnfileAll(b.(entries := b.entries[service.net := stats]), service.net);
    assert Set(b1, Demote(h, key, b1, slot), s);
    DemoteSets(h, key, b1, slot, s);
    var a := b.triedTable[slot];
    SelectedBucket(h, key, b.entries[a].service, b.entries[a].source);
  }

  // ----- Whom the "new" table depends on -----

  /** A source of the group announced address a. */
  ghost predicate Told(h: Hashes, ops: seq<Op>, a: NetAddr, group: nat) {
    exists i :: 0 <= i < |ops| && ops[i].OpAdd? && ops[i].addr.service.net == a && h.group(ops[i].source) == group
  }

  /** Every "new" slot lies within reach of a source that announced the address in it, and so
      does the recorded source of every address. */
  ghost predicate WithinReach(h: Hashes, key: nat, b: Book, ops: seq<Op>) {
    && (forall a :: a in b.entries ==> Told(h, ops, a, h.group(b.entries[a].source)))
    && (forall s :: s in b.newTable ==> exists g :: Told(h, ops, b.newTable[s], g) && s.bucket in NewBuckets(h, key, g))
  }

  lemma ToldStays(h: Hashes, ops: seq<Op>, op: Op, a: NetAddr, group: nat)
    requires Told(h, ops, a, group)
    ensures Told(h, ops + [op], a, group)
  {
    var i :| 0 <= i < |ops| && ops[i].OpAdd? && ops[i].addr.service.net == a && h.group(ops[i].source) == group;
    assert (ops + [op])[i] == ops[i];
  }

  /** Where the sources of the entries come from: an operation keeps them, except that an
      announcement adds its own. */
  lemma SourcesKept(h: Hashes, key: nat, b: Book, lastGood: int, op: Op, a: NetAddr)
    requires a in StepBook(h, key, b, lastGood, op).entries
    ensures var source := StepBook(h, key, b, lastGood, op).entries[a].source;
            if a in b.entries then source == b.entries[a].source
            else op.OpAdd? && op.addr.service.net == a && op.source == source
  {
    hide WellFiled, AddToBook, GoodInBook;
    match op
    case OpAdd(addr, source, penalty, now, random) => AddSources(h, key, b, addr, source, penalty, now, random, a);
    case OpGood(service, time, _) => GoodSources(h, key, b, service, time, a);
    case _ =>
  }

  lemma AddSources(h: Hashes, key: nat, b: Book, addr: Address, source: NetAddr, penalty: int, now: int, random: nat,
                   a: NetAddr)
    requires a in AddToBook(h, key, b, addr, source, penalty, now, random).entries
    ensures AddToBook(h, key, b, addr, source, penalty, now, random).entries[a].source ==
              if a in b.entries then b.entries[a].source else source
    ensures a !in b.entries ==> a == addr.service.net
  {
    hide FileNew, NewSlot;
    var pen := if addr.service.net == source then 0 else penalty;
    var stats := if addr.service.net in b.entries then Refreshed(b.entries[addr.service.net], addr, pen, now)
      else NewStats(addr, source, pen);
    FileNewEntries(h, key, b.(entries := b.entries[addr.service.net := stats]), addr.service.net, source, now);
  }

  lemma FileNewEntries(h: Hashes, key: nat, b: Book, a: NetAddr, source: NetAddr, now: int)
    requires a in b.entries
    ensures var u := FileNew(h, key, b, a, source, now);
            forall x :: x in u.entries ==> x in b.entries && u.entries[x] == b.entries[x]
  {}

  lemma DemoteEntries(h: Hashes, key: nat, b: Book, slot: Slot)
    ensures var u := Demote(h, key, b, slot);
            forall x :: x in u.entries ==> x in b.entries && u.entries[x] == b.entries[x]
  {}

  lemma GoodSources(h: Hashes, key: nat, b: Book, service: Service, time: int, a: NetAddr)
    requires a in GoodInBook(h, key, b, service, time).entries
    ensures a in b.entries && GoodInBook(h, key, b, service, time).entries[a].source == b.entries[a].source
  {
    hide Demote, TriedSlot;
    if service.net in b.entries {
      var stats := b.entries[service.net].(nLastSuccess := time, nLastTry := time, nAttempts := 0);
      var b1 := UnfileAll(b.(entries := b.entries[service.net := stats]), service.net);
      DemoteEntries(h, key, b1, TriedSlot(h, key, service));
    }
  }

  lemma SlotsKept(h: Hashes, key: nat, b: Book, lastGood: int, op: Op, s: Slot)
    requires WellFiled(h, key, b) && Set(b, StepBook(h, key, b, lastGood, op), s)
    ensures var a := StepBook(h, key, b, lastGood, op).newTable[s];
            || (op.OpAdd? && op.addr.service.net == a && s.bucket in NewBuckets(h, key, h.group(op.source)))
            || (a in b.entries && s.bucket in NewBuckets(h, key, h.group(b.entries[a].source)))
  {
    hide NewBuckets, WellFiled, AddToBook, GoodInBook;
    match op
    case OpAdd(addr, source, penalty, now, random) => AddSets(h, key, b, addr, source, penalty, now, random, s);
    case OpGood(service, time, _) => GoodSets(h, key, b, service, time, s);
    case _ =>
  }

  lemma ReachKept(h: Hashes, key: nat, b: Book, lastGood: int, ops: seq<Op>, op: Op)
    requires WellFiled(h, key, b) && WithinReach(h, key, b, ops)
    ensures WithinReach(h, key, StepBook(h, key, b, lastGood, op), ops + [op])
  {
    hide NewBuckets, WellFiled, StepBook, Told;
    var u := StepBook(h, key, b, lastGood, op);
    if op.OpAdd? { ToldNow(h, ops, op); }
    forall a | a in u.entries ensures Told(h, ops + [op], a, h.group(u.entries[a].source)) {
      SourcesKept(h, key, b, lastGood, op, a);
      if a in b.entries { ToldStays(h, ops, op, a, h.group(b.entries[a].source)); }
    }
    forall s | s in u.newTable
      ensures exists g :: Told(h, ops + [op], u.newTable[s], g) && s.bucket in NewBuckets(h, key, g)
    {
      if Set(b, u, s) {
        SlotsKept(h, key, b, lastGood, op, s);
        var a := u.newTable[s];
        if a in b.entries { ToldStays(h, ops, op, a, h.group(b.entries[a].source)); }
      } else {
        var g :| Told(h, ops, b.newTable[s], g) && s.bucket in NewBuckets(h, key, g);
        ToldStays(h, ops, op, b.newTable[s], g);
      }
    }
  }

  lemma ToldNow(h: Hashes, ops: seq<Op>, op: Op)
    requires op.OpAdd?
    ensures Told(h, ops + [op], op.addr.service.net, h.group(op.source))
  {
    assert (ops + [op])[|ops|] == op;
  }

  /** The "new" buckets that hold an address which only one group of sources announced. */
  ghost function BucketsOfSource(h: Hashes, b: Book, ops: seq<Op>, group: nat): set<nat> {
    set s | s in b.newTable && OnlyTold(h, ops, b.newTable[s], group) :: s.bucket
  }

  ghost predicate OnlyTold(h: Hashes, ops: seq<Op>, a: NetAddr, group: nat) {
    forall g :: Told(h, ops, a, g) ==> g == group
  }

  /** The addresses that only one group of sources announced lie in at most 64 of the 1024
      buckets of the "new" table. */
  lemma SourceGroupStaysInFewBuckets(h: Hashes, key: nat, b: Book, ops: seq<Op>, group: nat)
    requires WithinReach(h, key, b, ops)
    ensures |BucketsOfSource(h, b, ops, group)| <= 64
  {
    hide NewBuckets, Told;
    NewBucketsBound(h, key, group);
    forall bucket | bucket in BucketsOfSource(h, b, ops, group) ensures bucket in NewBuckets(h, key, group) {
      var s :| s in b.newTable && OnlyTold(h, ops, b.newTable[s], group) && s.bucket == bucket;
      var g :| Told(h, ops, b.newTable[s], g) && s.bucket in NewBuckets(h, key, g);
      assert g == group;
    }
    SubsetCount(BucketsOfSource(h, b, ops, group), NewBuckets(h, key, group));
  }

  // ----- What the statistics of an entry decide -----

  /** The five ways to be terrible, and the minute's grace after an attempt that excuses all. */
  lemma TerribleExactly(s: Stats, now: int)
    ensures IsTerrible(s, now) <==>
              && (s.nLastTry == 0 || now - s.nLastTry > 60)
              && (|| s.nTime - now > 600
                  || s.nTime == 0
                  || now - s.nTime > 2_592_000
                  || (s.nLastSuccess == 0 && s.nAttempts >= 3)
                  || (s.nAttempts >= 10 && now - s.nLastSuccess > 604_800))
  {}

  /** An attempt protects the entry for a minute. */
  lemma AttemptProtects(b: Book, s: Service, count: bool, time: int, lastGood: int, now: int)
    requires s.net in b.entries && b.entries[s.net].service == s && time != 0 && now <= time + 60
    ensures !IsTerrible(AttemptInBook(b, s, count, time, lastGood).entries[s.net], now)
  {}

  /** A success brings the address into its "tried" slot and clears its failures: from then
      on it is terrible only for the time at which it was last seen. */
  lemma GoodClears(h: Hashes, key: nat, b: Book, s: Service, time: int, now: int)
    requires WellFiled(h, key, b) && s.net in b.entries && b.entries[s.net].service == s && time != 0
    ensures var u, slot := GoodInBook(h, key, b, s, time), TriedSlot(h, key, s);
            && slot in u.triedTable && u.triedTable[slot] == s.net && s.net !in u.newTable.Values && s.net in u.entries
            && (IsTerrible(u.entries[s.net], now) <==>
                  && now - time > 60
                  && var seen := b.entries[s.net].nTime;
                     seen == 0 || seen > now + 600 || now - seen > 2_592_000)
  {
    hide IsTerrible, TriedSlot, NewSlot;
    var stats := b.entries[s.net].(nLastSuccess := time, nLastTry := time, nAttempts := 0);
    TerribleExactly(stats, now);
    var b1 := b.(entries := b.entries[s.net := stats]);
    if s.net in b.triedTable.Values {
      var slot :| slot in b.triedTable && b.triedTable[slot] == s.net;
      assert slot == TriedSlot(h, key, s);
      assert forall x :: x in b.newTable ==> b.newTable[x] != s.net;
    } else {
      DemoteSpares(h, key, UnfileAll(b1, s.net), TriedSlot(h, key, s), s.net);
    }
  }

  lemma DemoteSpares(h: Hashes, key: nat, b: Book, slot: Slot, a: NetAddr)
    requires a in b.entries && a !in b.newTable.Values && a !in b.triedTable.Values
    ensures var u := Demote(h, key, b, slot);
            a in u.entries && u.entries[a] == b.entries[a] && a !in u.newTable.Values
  {
    hide NewSlot;
    if slot in b.triedTable && b.triedTable[slot] in b.entries {
      var evicted := b.triedTable[slot];
      var target := NewSlot(h, key, b.entries[evicted].service, b.entries[evicted].source);
      assert target in b.newTable ==> b.newTable[target] != a;
    }
  }

  /** When an announcement takes a slot from another address: for an unknown address, exactly
      if it selects that slot and the occupant is terrible or has another slot; a known
      address takes a slot only from a terrible one. */
  lemma OccupantStays(h: Hashes, key: nat, b: Book, addr: Address, source: NetAddr, penalty: int, now: int,
                      random: nat, s: Slot)
    requires WellFiled(h, key, b) && s in b.newTable && b.newTable[s] != addr.service.net
    ensures var u, a := AddToBook(h, key, b, addr, source, penalty, now, random), addr.service.net;
            var occupant := b.newTable[s];
            var taken := !(s in u.newTable && u.newTable[s] == occupant);
            if a in b.entries then taken ==> IsTerrible(b.entries[occupant], now)
            else
              taken <==> && h.routable(a) && s == NewSlot(h, key, addr.service, source)
                         && (IsTerrible(b.entries[occupant], now) || |SlotsOf(b, occupant)| > 1)
  {
    hide NewSlot, IsTerrible, FileNew;
    var a := addr.service.net;
    var pen := if a == source then 0 else penalty;
    var stats := if a in b.entries then Refreshed(b.entries[a], addr, pen, now) else NewStats(addr, source, pen);
    var b1 := b.(entries := b.entries[a := stats]);
    FileNewTakes(h, key, b1, a, source, now, s);
    assert SlotsOf(b1, b.newTable[s]) == SlotsOf(b, b.newTable[s]);
    if a !in b.triedTable.Values { FiledSomewhere(h, key, b, a); }
    assert SlotsOf(b1, a) == SlotsOf(b, a);
  }

  lemma FileNewTakes(h: Hashes, key: nat, b: Book, a: NetAddr, source: NetAddr, now: int, s: Slot)
    requires a in b.entries && s in b.newTable && b.newTable[s] != a && b.newTable[s] in b.entries
    ensures var u, occupant := FileNew(h, key, b, a, source, now), b.newTable[s];
            !(s in u.newTable && u.newTable[s] == occupant) <==>
              && s == NewSlot(h, key, b.entries[a].service, source)
              && (IsTerrible(b.entries[occupant], now) || (|SlotsOf(b, occupant)| > 1 && SlotsOf(b, a) == {}))
  {
    hide NewSlot, IsTerrible;
  }

  lemma FiledSomewhere(h: Hashes, key: nat, b: Book, a: NetAddr)
    requires WellFiled(h, key, b) && a !in b.triedTable.Values
    ensures SlotsOf(b, a) == {} <==> a !in b.entries
  {
    hide NewSlot, TriedSlot;
  }

  /** An unknown address that finds its slot free is recorded as announced: with its source,
      at the announced time less the penalty, never tried; the penalty does not apply to an
      address that announces itself. */
  lemma NewcomerRecorded(h: Hashes, key: nat, b: Book, addr: Address, source: NetAddr, penalty: nat, now: int,
                         random: nat)
    requires h.routable(addr.service.net) && addr.service.net !in b.entries && addr.nTime < 0x1_0000_0000
    requires NewSlot(h, key, addr.service, source) !in b.newTable
    ensures var u, a := AddToBook(h, key, b, addr, source, penalty, now, random), addr.service.net;
            && u.newTable == b.newTable[NewSlot(h, key, addr.service, source) := a] && u.triedTable == b.triedTable
            && u.entries.Keys == b.entries.Keys + {a} && (forall x :: x in b.entries ==> u.entries[x] == b.entries[x])
            && var e := u.entries[a];
               && e.service == addr.service && e.nServices == addr.nServices && e.source == source
               && e.nLastTry == e.nLastCountAttempt == e.nLastSuccess == e.nAttempts == 0
               && (a == source ==> e.nTime == addr.nTime)
               && (a != source && addr.nTime >= penalty ==> e.nTime + penalty == addr.nTime)
               && (a != source && addr.nTime < penalty ==> e.nTime == 0)
  {
    hide NewSlot;
  }

  /** When a known address gets a free slot: the announcement is news even after the entry was
      refreshed, the address is not tried, and it passes a test that gets twice as hard with
      every slot it has, up to eight. */
  lemma KnownRefiled(h: Hashes, key: nat, b: Book, addr: Address, source: NetAddr, penalty: int, now: int, random: nat)
    requires WellFiled(h, key, b) && h.routable(addr.service.net) && addr.service.net in b.entries
    requires NewSlot(h, key, b.entries[addr.service.net].service, source) !in b.newTable
    ensures var a, u := addr.service.net, AddToBook(h, key, b, addr, source, penalty, now, random);
            var slot, n := NewSlot(h, key, b.entries[a].service, source), |SlotsOf(b, a)|;
            && a in u.entries && u.triedTable == b.triedTable && u.entries.Keys == b.entries.Keys
            && u.newTable == (if slot in u.newTable then b.newTable[slot := a] else b.newTable)
            && (slot in u.newTable <==>
                  && addr.nTime != 0 && (u.entries[a].nTime == 0 || addr.nTime > u.entries[a].nTime)
                  && a !in b.triedTable.Values && n < 8 && Leaves(random, Pow2(n), 0))
  {
    hide NewSlot, Refreshed, Pow2, TriedSlot, BucketPosition;
    var a := addr.service.net;
    var n := |SlotsOf(b, a)|;
    LeavesExactly(random, Pow2(n), 0);
    var pen := if a == source then 0 else penalty;
    var b1 := b.(entries := b.entries[a := Refreshed(b.entries[a], addr, pen, now)]);
    assert SlotsOf(b1, a) == SlotsOf(b, a);
    assert Refreshed(b.entries[a], addr, pen, now).service == b.entries[a].service;
  }

  /** Between two successes anywhere, an entry counts at most one failure, however often it is
      tried; the attempts are recorded all the same. */
  lemma CountedOnce(b: Book, s: Service, count1: bool, time1: int, count2: bool, time2: int, lastGood: int)
    requires s.net in b.entries && b.entries[s.net].service == s && time1 >= lastGood
    ensures var e := b.entries[s.net];
            var u := AttemptInBook(AttemptInBook(b, s, count1, time1, lastGood), s, count2, time2, lastGood);
            && u.entries[s.net].nLastTry == time2
            && u.entries[s.net].nAttempts - e.nAttempts ==
                 if (count1 || count2) && e.nLastCountAttempt < lastGood then 1 else 0
  {}

  /** A connection leaves the time of the entry at most twenty minutes behind and never moves
      it back; no other address and no slot is touched. */
  lemma ConnectedRefreshes(b: Book, s: Service, time: int)
    requires s.net in b.entries && b.entries[s.net].service == s && 0 <= time < 0x1_0000_0000
    ensures var u := ConnectedInBook(b, s, time);
            && time - u.entries[s.net].nTime <= 1200 && b.entries[s.net].nTime <= u.entries[s.net].nTime
            && u.entries[s.net].nTime == (if time - b.entries[s.net].nTime > 1200 then time else b.entries[s.net].nTime)
            && u == b.(entries := b.entries[s.net := b.entries[s.net].(nTime := u.entries[s.net].nTime)])
  {
    assert b.entries == b.entries[s.net := b.entries[s.net]];
  }

  /** The services of a known address only grow: a bit is set afterwards exactly if it was set
      or is announced. */
  lemma ServicesGrow(s: Stats, addr: Address, penalty: int, now: int, bit: bv64)
    ensures Refreshed(s, addr, penalty, now).nServices & bit == (s.nServices & bit) | (addr.nServices & bit)
  {
    ServiceBits(s.nServices, addr.nServices, bit);
  }

  lemma ServiceBits(a: bv64, b: bv64, bit: bv64)
    ensures (a | b) & bit == (a & bit) | (b & bit)
  {}

  // ----- The time conditions of Check_ -----

  /** Check_ codes -1, -6 and -8: no negative times, and a tried address succeeded once. */
  ghost predicate TimesOk(b: Book) {
    && (forall a :: a in b.entries ==> b.entries[a].nLastTry >= 0 && b.entries[a].nLastSuccess >= 0)
    && (forall a :: a in b.entries && a in b.triedTable.Values ==> b.entries[a].nLastSuccess > 0)
  }

  lemma DemoteTimes(h: Hashes, key: nat, b: Book, slot: Slot)
    requires TimesOk(b)
    ensures TimesOk(Demote(h, key, b, slot))
    ensures forall a :: a in Demote(h, key, b, slot).entries ==>
              a in b.entries && Demote(h, key, b, slot).entries[a] == b.entries[a]
    ensures forall a :: a in Demote(h, key, b, slot).triedTable.Values ==> a in b.triedTable.Values
  {}

  /** Marking an address good with a positive time keeps the time conditions. */
  lemma GoodTimes(h: Hashes, key: nat, b: Book, s: Service, time: int)
    requires TimesOk(b) && time > 0
    ensures TimesOk(GoodInBook(h, key, b, s, time))
  {
    if s.net in b.entries && b.entries[s.net].service == s {
      var stats := b.entries[s.net].(nLastSuccess := time, nLastTry := time, nAttempts := 0);
      var b1 := b.(entries := b.entries[s.net := stats]);
      if s.net !in b.triedTable.Values {
        var slot := TriedSlot(h, key, s);
        var b2 := UnfileAll(b1, s.net);
        var b3 := Demote(h, key, b2, slot);
        DemoteTimes(h, key, b2, slot);
        var b4 := b3.(triedTable := b3.triedTable[slot := s.net]);
        assert GoodInBook(h, key, b, s, time) == b4;
        forall a | a in b4.entries && a in b4.triedTable.Values ensures b4.entries[a].nLastSuccess > 0 {
          assert a == s.net || a in b3.triedTable.Values;
        }
      }
    }
  }

  lemma FileNewTimes(h: Hashes, key: nat, b: Book, a: NetAddr, source: NetAddr, now: int)
    requires TimesOk(b) && a in b.entries
    ensures TimesOk(FileNew(h, key, b, a, source, now))
  {}

  lemma AddTimes(h: Hashes, key: nat, b: Book, addr: Address, source: NetAddr, penalty: int, now: int, random: nat)
    requires TimesOk(b) && WellFiled(h, key, b)
    ensures TimesOk(AddToBook(h, key, b, addr, source, penalty, now, random))
  {
    var a := addr.service.net;
    var pen := if a == source then 0 else penalty;
    var stats := if a in b.entries then Refreshed(b.entries[a], addr, pen, now) else NewStats(addr, source, pen);
    var b1 := b.(entries := b.entries[a := stats]);
    assert TimesOk(b1);
    FileNewTimes(h, key, b1, a, source, now);
  }

  lemma AttemptTimes(b: Book, s: Service, count: bool, time: int, lastGood: int)
    requires TimesOk(b) && time >= 0
    ensures TimesOk(AttemptInBook(b, s, count, time, lastGood))
  {}

  lemma ConnectedTimes(b: Book, s: Service, time: int)
    requires TimesOk(b)
    ensures TimesOk(ConnectedInBook(b, s, time))
  {}

  // ----- The counters -----

  /** Check_ codes -7, -9 and -10: vRandom lists every entry once, and the two counters
      add up to the number of addresses. */
  lemma CountersExact(h: Hashes, t: Tables, b: Book)
    requires Consistent(h, t) && Shows(t, b)
    ensures |t.rnd| == t.nNew + t.nTried == |b.entries|
  {
    hide IndexOk, RandomOk, NewOk, TriedOk, RefsOk, FiledOk, CountsOk, ShowsSlots;
    IdCount(t);
    RandomCount(t);
    NetCount(t);
    SameSize(t.addr, b.entries);
  }

  lemma IdCount(t: Tables)
    requires CountsOk(t, 0)
    ensures |t.info.Keys| == t.nNew + t.nTried
  {
    assert t.info.Keys == NewIds(t.info) + TriedIds(t.info);
    assert NewIds(t.info) !! TriedIds(t.info);
  }

  lemma NetCount(t: Tables)
    requires IndexOk(t) && RandomOk(t)
    ensures |t.rnd| == |t.addr.Keys|
  {
    hide IndexOk, RandomOk;
    RandomInfo(t);
    var nets := seq(|t.rnd|, i requires 0 <= i < |t.rnd| => t.info[t.rnd[i]].stats.service.net);
    NetsDistinct(t, nets);
    DistinctCount(nets, t.addr.Keys);
  }

  lemma RandomInfo(t: Tables)
    requires RandomOk(t)
    ensures forall i :: 0 <= i < |t.rnd| ==> t.rnd[i] in t.info
  {}

  lemma SameSize<A, B, C>(m: map<A, B>, n: map<A, C>)
    requires m.Keys == n.Keys
    ensures |m.Keys| == |n|
  {}

  lemma RandomCount(t: Tables)
    requires RandomOk(t)
    ensures |t.rnd| == |t.info.Keys|
  {
    forall x ensures x in t.rnd <==> x in t.info.Keys {
      if x in t.info {
        assert t.rnd[t.info[x].nRandomPos] == x;
      }
    }
    forall i, j | 0 <= i < j < |t.rnd| ensures t.rnd[i] != t.rnd[j] {
      var id, id' := t.rnd[i], t.rnd[j];
      assert t.info[id].nRandomPos == i && t.info[id'].nRandomPos == j;
    }
    DistinctCount(t.rnd, t.info.Keys);
  }

  lemma NetsDistinct(t: Tables, nets: seq<NetAddr>)
    requires IndexOk(t) && RandomOk(t) && |nets| == |t.rnd|
    requires forall i :: 0 <= i < |nets| ==> nets[i] == t.info[t.rnd[i]].stats.service.net
    ensures forall i, j :: 0 <= i < j < |nets| ==> nets[i] != nets[j]
    ensures forall a :: a in nets <==> a in t.addr.Keys
  {
    forall a | a in t.addr ensures a in nets {
      var id := t.addr[a];
      assert id in t.info && nets[t.info[id].nRandomPos] == a;
    }
    forall i | 0 <= i < |nets| ensures nets[i] in t.addr && t.addr[nets[i]] == t.rnd[i] {
      var id := t.rnd[i];
      assert id in t.info;
    }
    forall i, j | 0 <= i < j < |nets| ensures nets[i] != nets[j] {
      var id, id' := t.rnd[i], t.rnd[j];
      assert t.info[id].nRandomPos == i && t.info[id'].nRandomPos == j;
    }
  }

  lemma ServicesTimes(b: Book, service: Service, services: bv64)
    requires TimesOk(b)
    ensures TimesOk(ServicesInBook(b, service, services))
  {}

  // ----- Every run -----

  datatype Op =
    | OpAdd(addr: Address, source: NetAddr, penalty: int, now: int, random: nat)
    | OpGood(service: Service, time: int, random: nat)
    | OpAttempt(service: Service, count: bool, time: int)
    | OpConnected(service: Service, time: int)
    | OpSetServices(service: Service, services: bv64)
    | OpGetAddr(now: int, choice: nat -> nat)

  /** The clock readings that Good and Attempt get in practice. */
  ghost predicate Timely(op: Op) {
    match op
    case OpGood(_, time, _) => time > 0
    case OpAttempt(_, _, time) => time >= 0
    case _ => true
  }

  /** The same operation on the book; lastGood is the time of the last success anywhere. */
  ghost function StepBook(h: Hashes, key: nat, b: Book, lastGood: int, op: Op): Book {
    match op
    case OpAdd(addr, source, penalty, now, random) => AddToBook(h, key, b, addr, source, penalty, now, random)
    case OpGood(service, time, _) => GoodInBook(h, key, b, service, time)
    case OpAttempt(service, count, time) => AttemptInBook(b, service, count, time, lastGood)
    case OpConnected(service, time) => ConnectedInBook(b, service, time)
    case OpSetServices(service, services) => ServicesInBook(b, service, services)
    case OpGetAddr(_, _) => b
  }

  ghost function StepGood(lastGood: int, op: Op): int {
    if op.OpGood? then op.time else lastGood
  }

  /** All operations on a book that is empty at first. */
  ghost function RunGood(ops: seq<Op>): int {
    if ops == [] then 1 else StepGood(RunGood(ops[..|ops| - 1]), ops[|ops| - 1])
  }

  ghost function RunBook(h: Hashes, key: nat, ops: seq<Op>): Book {
    if ops == [] then Book(map[], map[], map[])
    else
      var n := |ops| - 1;
      StepBook(h, key, RunBook(h, key, ops[..n]), RunGood(ops[..n]), ops[n])
  }

  lemma RunNext(h: Hashes, key: nat, ops: seq<Op>, i: nat)
    requires i < |ops|
    ensures RunGood(ops[..i + 1]) == StepGood(RunGood(ops[..i]), ops[i])
    ensures RunBook(h, key, ops[..i + 1]) == StepBook(h, key, RunBook(h, key, ops[..i]), RunGood(ops[..i]), ops[i])
  {
    hide StepBook;
    assert ops[..i + 1][..i] == ops[..i];
  }

  method Step(m: AddrMan, op: Op)
    requires m.Valid()
    modifies m, m.vvNew, m.vvTried
    ensures m.Valid() && m.nKey == old(m.nKey)
    ensures m.book == StepBook(m.h, m.nKey, old(m.book), old(m.nLastGood), op)
    ensures m.nLastGood == StepGood(old(m.nLastGood), op)
    ensures Timely(op) && TimesOk(old(m.book)) ==> TimesOk(m.book)
  {
    hide Almost, Shows, WellFiled, AddToBook, GoodInBook, AttemptInBook, ConnectedInBook, ServicesInBook;
    ghost var b, lastGood := m.book, m.nLastGood;
    ConsistentIsWellFiled(m.h, m.Now(), b);
    match op
    case OpAdd(addr, source, penalty, now, random) =>
      var _ := m.Add(addr, source, penalty, now, random);
      if TimesOk(b) { AddTimes(m.h, m.nKey, b, addr, source, penalty, now, random); }
    case OpGood(service, time, random) =>
      m.Good(service, time, random);
      if TimesOk(b) && time > 0 { GoodTimes(m.h, m.nKey, b, service, time); }
    case OpAttempt(service, count, time) =>
      m.Attempt(service, count, time);
      if TimesOk(b) && time >= 0 { AttemptTimes(b, service, count, time, lastGood); }
    case OpConnected(service, time) =>
      m.Connected(service, time);
      if TimesOk(b) { ConnectedTimes(b, service, time); }
    case OpSetServices(service, services) =>
      m.SetServices(service, services);
      if TimesOk(b) { ServicesTimes(b, service, services); }
    case OpGetAddr(now, choice) => var _ := m.GetAddr(now, choice);
  }

  /** Every run of operations from an empty manager keeps the invariant, in any order, with
      any random choices and clock readings, and shows the book on which the same operations
      were done. The key stays the one drawn at first. */
  method Run(h: Hashes, key: nat, ops: seq<Op>) returns (m: AddrMan)
    ensures m.Valid() && m.nKey == key && m.book == RunBook(h, key, ops)
    ensures WellFiled(h, key, m.book)
    ensures |m.vRandom| == m.nNew + m.nTried == |m.book.entries|
    ensures (forall i :: 0 <= i < |ops| ==> Timely(ops[i])) ==> TimesOk(m.book)
    ensures forall group :: |BucketsOfGroup(h, m.book, group)| <= 8
    ensures WithinReach(h, key, m.book, ops)
    ensures forall group :: |BucketsOfSource(h, m.book, ops, group)| <= 64
  {
    hide Almost, Shows, WellFiled, TimesOk, Timely, RunBook, RunGood, StepBook, StepGood, WithinReach,
         BucketsOfGroup, BucketsOfSource;
    m := new AddrMan(h, key);
    NoTimes();
    NothingRun(h, key, ops);
    NothingFiled(h, key, ops);
    for i := 0 to |ops|
      invariant fresh(m) && fresh(m.vvNew) && fresh(m.vvTried)
      invariant m.Valid() && m.h == h && m.nKey == key
      invariant m.book == RunBook(h, key, ops[..i]) && m.nLastGood == RunGood(ops[..i])
      invariant WithinReach(h, key, m.book, ops[..i])
      invariant (forall j :: 0 <= j < i ==> Timely(ops[j])) ==> TimesOk(m.book)
    {
      RunNext(h, key, ops, i);
      ConsistentIsWellFiled(h, m.Now(), m.book);
      ReachKept(h, key, m.book, m.nLastGood, ops[..i], ops[i]);
      assert ops[..i + 1] == ops[..i] + [ops[i]];
      Step(m, ops[i]);
    }
    assert ops[..|ops|] == ops;
    ConsistentIsWellFiled(h, m.Now(), m.book);
    CountersExact(h, m.Now(), m.book);
    forall group ensures |BucketsOfGroup(h, m.book, group)| <= 8 {
      GroupStaysInFewBuckets(h, key, m.book, group);
    }
    forall group ensures |BucketsOfSource(h, m.book, ops, group)| <= 64 {
      SourceGroupStaysInFewBuckets(h, key, m.book, ops, group);
    }
  }

  lemma NothingFiled(h: Hashes, key: nat, ops: seq<Op>)
    ensures WithinReach(h, key, Book(map[], map[], map[]), ops[..0])
  {}

  lemma NothingRun(h: Hashes, key: nat, ops: seq<Op>)
    ensures RunBook(h, key, ops[..0]) == Book(map[], map[], map[]) && RunGood(ops[..0]) == 1
  {}

  lemma NoTimes()
    ensures TimesOk(Book(map[], map[], map[]))
  {}
}
