/** CRollingBloomFilter (src/bloom.cpp, src/bloom.h): a Bloom filter that forgets. Each
    position carries a two-bit generation tag, spread over a pair of 64-bit words. */
module Bloom {
  import opened Powers

  type Key = seq<bv8>

  // ----- Tags -----

  predicate Bit(w: bv64, c: bv6) { (w >> c) & 1 == 1 }

  function Word(v: bool): bv64 { if v then 1 else 0 }

  function Hole(c: bv6): bv64 { !(1 << c) }

  function Kept(w: bv64, mask: bv64): bv64 { w & mask }

  function Shifted(v: bool, c: bv6): bv64 { Word(v) << c }

  function Put(w: bv64, c: bv6, v: bool): bv64 { Kept(w, Hole(c)) | Shifted(v, c) }

  /** Subtracting 0 or 1 from 0 spreads it over all bits. */
  function Flipped(w: bv64, v: bool): bv64 { w ^ (0 - Word(v)) }

  function Mask(w1: bv64, w2: bv64, g: nat): bv64 { Flipped(w1, g % 2 == 1) | Flipped(w2, g / 2 == 1) }

  lemma BitOr(a: bv64, b: bv64, c: bv6)
    ensures Bit(a | b, c) <==> Bit(a, c) || Bit(b, c)
  {}

  lemma KeptBit(w: bv64, mask: bv64, c: bv6)
    ensures Bit(Kept(w, mask), c) <==> Bit(w, c) && Bit(mask, c)
  {}

  lemma FlippedBit(w: bv64, v: bool, c: bv6)
    ensures Bit(Flipped(w, v), c) <==> Bit(w, c) != v
  {}

  lemma HoleBit(b: bv6, c: bv6)
    ensures Bit(Hole(b), c) <==> b != c
  {}

  lemma ShiftedBit(v: bool, b: bv6, c: bv6)
    ensures Bit(Shifted(v, b), c) <==> v && b == c
  {}

  lemma PutBit(w: bv64, b: bv6, c: bv6, v: bool)
    ensures Bit(Put(w, b, v), c) <==> if b == c then v else Bit(w, c)
  {
    hide Bit, Kept, Hole, Shifted;
    BitOr(Kept(w, Hole(b)), Shifted(v, b), c);
    KeptBit(w, Hole(b), c);
    HoleBit(b, c);
    ShiftedBit(v, b, c);
  }

  /** The tag of position c in a pair of words: 0 if unset, else a generation number. */
  function Tag(w1: bv64, w2: bv64, c: bv6): (g: nat)
    ensures g <= 3
  {
    (if Bit(w1, c) then 1 else 0) + (if Bit(w2, c) then 2 else 0)
  }

  lemma PutTag(w1: bv64, w2: bv64, b: bv6, c: bv6, g: nat)
    requires 1 <= g <= 3
    ensures Tag(Put(w1, b, g % 2 == 1), Put(w2, b, g / 2 == 1), c) == if b == c then g else Tag(w1, w2, c)
  {
    hide Bit, Put;
    PutBit(w1, b, c, g % 2 == 1);
    PutBit(w2, b, c, g / 2 == 1);
  }

  /** Masking clears exactly the tags of generation g. */
  lemma WipeTag(w1: bv64, w2: bv64, c: bv6, g: nat)
    requires 1 <= g <= 3
    ensures Tag(Kept(w1, Mask(w1, w2, g)), Kept(w2, Mask(w1, w2, g)), c) ==
              if Tag(w1, w2, c) == g then 0 else Tag(w1, w2, c)
  {
    hide Bit, Flipped, Kept;
    KeptBit(w1, Mask(w1, w2, g), c);
    KeptBit(w2, Mask(w1, w2, g), c);
    BitOr(Flipped(w1, g % 2 == 1), Flipped(w2, g / 2 == 1), c);
    FlippedBit(w1, g % 2 == 1, c);
    FlippedBit(w2, g / 2 == 1, c);
  }

  /** The test made by contains. */
  predicate Probe(w1: bv64, w2: bv64, c: bv6) { Bit(w1 | w2, c) }

  lemma ProbeSeesTag(w1: bv64, w2: bv64, c: bv6)
    ensures Probe(w1, w2, c) <==> Tag(w1, w2, c) != 0
  {
    hide Bit;
    BitOr(w1, w2, c);
  }

  // ----- What the filter should hold -----

  /** The tag of the j-th generation since reset. */
  function GenerationTag(j: nat): (g: nat)
    ensures 1 <= g <= 3
  {
    j % 3 + 1
  }

  lemma GenerationTags(j: nat, k: nat)
    requires j <= k <= j + 3
    ensures GenerationTag(j) == GenerationTag(k) <==> k == j || k == j + 3
  {}

  /** The seeded hash and the sizes chosen at construction: `pairs` pairs of words. */
  datatype Config = Config(pairs: nat, nHashFuncs: nat, nEntriesPerGeneration: nat, hash: (nat, bv32, Key) -> nat)

  ghost predicate ConfigOk(f: Config) {
    f.pairs > 0 && f.nEntriesPerGeneration > 0
  }

  /** A position: a pair of words and a bit in them. */
  datatype Place = Place(pair: nat, bit: bv6)

  function PlaceOf(f: Config, nTweak: bv32, n: nat, key: Key): (r: Place)
    requires f.pairs > 0
    ensures r.pair < f.pairs
  {
    var h := f.hash(n, nTweak, key) % 0x1_0000_0000;
    var pos := h / 64 % (2 * f.pairs);
    Place(pos / 2, (h % 64) as bv6)
  }

  /** The n-th hash, a 32-bit number, counts bits within words and words round the table; the
      lowest bit of the word number does not matter. */
  lemma PlaceExactly(f: Config, nTweak: bv32, n: nat, key: Key, p: Place)
    requires f.pairs > 0
    ensures p == PlaceOf(f, nTweak, n, key) <==>
              && p.pair < f.pairs
              && exists rounds: nat, low: nat :: low < 2 && IsSpot(f, f.hash(n, nTweak, key), p, rounds, low)
  {
    hide IsSpot, PlaceOf;
    var hash, r := f.hash(n, nTweak, key), PlaceOf(f, nTweak, n, key);
    var rounds, low := SpotOf(f, nTweak, n, key);
    forall rounds': nat, low': nat | p.pair < f.pairs && low' < 2 && IsSpot(f, hash, p, rounds', low') ensures p == r {
      SpotUnique(f, hash, p, rounds', low', r, rounds, low);
    }
  }

  ghost predicate IsSpot(f: Config, hash: nat, p: Place, rounds: nat, low: nat) {
    hash % 0x1_0000_0000 == 64 * Word64(f, p, rounds, low) + p.bit as int
  }

  ghost function Word64(f: Config, p: Place, rounds: nat, low: nat): int {
    2 * f.pairs * rounds + 2 * p.pair + low
  }

  lemma SpotOf(f: Config, nTweak: bv32, n: nat, key: Key) returns (rounds: nat, low: nat)
    requires f.pairs > 0
    ensures low < 2 && IsSpot(f, f.hash(n, nTweak, key), PlaceOf(f, nTweak, n, key), rounds, low)
  {
    var h: nat := f.hash(n, nTweak, key) % 0x1_0000_0000;
    var words, pairs := h / 64, 2 * f.pairs;
    QuotientNat(words, pairs);
    var pos := words % pairs;
    rounds, low := words / pairs, pos % 2;
    BitValue(h % 64);
    assert pairs * rounds + 2 * (pos / 2) + low == words;
  }

  lemma BitValue(x: nat)
    requires x < 64
    ensures (x as bv6) as int == x
  {}

  lemma SpotUnique(f: Config, hash: nat, p: Place, rounds: nat, low: nat, q: Place, rounds': nat, low': nat)
    requires p.pair < f.pairs && low < 2 && IsSpot(f, hash, p, rounds, low)
    requires q.pair < f.pairs && low' < 2 && IsSpot(f, hash, q, rounds', low')
    ensures p == q
  {
    assert Word64(f, p, rounds, low) == Word64(f, q, rounds', low') && p.bit as int == q.bit as int by {
      hide Word64;
      BitRange(p.bit);
      BitRange(q.bit);
    }
    DivModUnique(Word64(f, p, rounds, low), 2 * f.pairs, rounds, 2 * p.pair + low);
    DivModUnique(Word64(f, q, rounds', low'), 2 * f.pairs, rounds', 2 * q.pair + low');
    SameBit(p.bit, q.bit);
  }

  lemma BitRange(b: bv6)
    ensures 0 <= b as int < 64
  {}

  lemma SameBit(b: bv6, c: bv6)
    requires b as int == c as int
    ensures b == c
  {}

  lemma QuotientNat(x: nat, d: nat)
    requires d > 0
    ensures x / d >= 0 && x == d * (x / d) + x % d
  {}

  ghost predicate Hits(f: Config, nTweak: bv32, key: Key, n: nat, p: Place)
    requires f.pairs > 0
  {
    exists m: nat :: m < n && PlaceOf(f, nTweak, m, key) == p
  }

  /** The index of the last key that was written to p, or -1. */
  ghost function LastWrite(f: Config, nTweak: bv32, keys: seq<Key>, p: Place): (r: int)
    requires f.pairs > 0
    ensures -1 <= r < |keys|
    ensures r >= 0 ==> Hits(f, nTweak, keys[r], f.nHashFuncs, p)
    ensures forall i :: r < i < |keys| ==> !Hits(f, nTweak, keys[i], f.nHashFuncs, p)
  {
    if keys == [] then -1
    else if Hits(f, nTweak, keys[|keys| - 1], f.nHashFuncs, p) then |keys| - 1
    else LastWrite(f, nTweak, keys[..|keys| - 1], p)
  }

  /** A position holds the generation of its last writer, if that is the current generation,
      numbered `current` from reset, or one of the two before it. */
  ghost function Expected(f: Config, nTweak: bv32, keys: seq<Key>, current: nat, p: Place): nat
    requires ConfigOk(f)
  {
    var last := LastWrite(f, nTweak, keys, p);
    if last >= 0 && last / f.nEntriesPerGeneration + 2 >= current
    then GenerationTag(last / f.nEntriesPerGeneration)
    else 0
  }

  ghost function TagAt(data: seq<bv64>, p: Place): nat
    requires 2 * p.pair + 1 < |data|
  {
    Tag(data[2 * p.pair], data[2 * p.pair + 1], p.bit)
  }

  ghost predicate Holds(f: Config, nTweak: bv32, keys: seq<Key>, current: nat, data: seq<bv64>)
    requires ConfigOk(f)
  {
    && |data| == 2 * f.pairs
    && forall p: Place :: p.pair < f.pairs ==> TagAt(data, p) == Expected(f, nTweak, keys, current, p)
  }

  // ----- Steps of insert -----

  /** The tags once the first n hashes of key have been written in the current generation. */
  ghost predicate Writing(f: Config, nTweak: bv32, keys: seq<Key>, current: nat, key: Key, n: nat, data: seq<bv64>)
    requires ConfigOk(f)
  {
    && |data| == 2 * f.pairs
    && forall p: Place :: p.pair < f.pairs ==>
         TagAt(data, p) ==
           if Hits(f, nTweak, key, n, p) then GenerationTag(current) else Expected(f, nTweak, keys, current, p)
  }

  /** Writing one position. */
  ghost predicate Wrote(data: seq<bv64>, data': seq<bv64>, p: Place, g: nat)
    requires 2 * p.pair + 1 < |data|
  {
    && |data'| == |data|
    && data' == data[2 * p.pair := Put(data[2 * p.pair], p.bit, g % 2 == 1)]
                    [2 * p.pair + 1 := Put(data[2 * p.pair + 1], p.bit, g / 2 == 1)]
  }

  lemma WroteTag(data: seq<bv64>, data': seq<bv64>, p: Place, g: nat, q: Place)
    requires 2 * p.pair + 1 < |data| && 2 * q.pair + 1 < |data| && 1 <= g <= 3
    requires Wrote(data, data', p, g)
    ensures TagAt(data', q) == if p == q then g else TagAt(data, q)
  {
    hide Put, Tag;
    if p.pair == q.pair {
      PutTag(data[2 * p.pair], data[2 * p.pair + 1], p.bit, q.bit, g);
    }
  }

  lemma WritingStep(f: Config, nTweak: bv32, keys: seq<Key>, current: nat, key: Key, n: nat, data: seq<bv64>,
                    data': seq<bv64>)
    requires ConfigOk(f) && Writing(f, nTweak, keys, current, key, n, data)
    requires Wrote(data, data', PlaceOf(f, nTweak, n, key), GenerationTag(current))
    ensures Writing(f, nTweak, keys, current, key, n + 1, data')
  {
    hide Tag, Expected, TagAt, PlaceOf;
    var p := PlaceOf(f, nTweak, n, key);
    forall q: Place | q.pair < f.pairs
      ensures TagAt(data', q) ==
                if Hits(f, nTweak, key, n + 1, q) then GenerationTag(current) else Expected(f, nTweak, keys, current, q)
    {
      WroteTag(data, data', p, GenerationTag(current), q);
      assert Hits(f, nTweak, key, n + 1, q) <==> p == q || Hits(f, nTweak, key, n, q);
    }
  }

  /** Once all hashes are written the key counts as inserted. */
  lemma WritingDone(f: Config, nTweak: bv32, keys: seq<Key>, current: nat, key: Key, data: seq<bv64>)
    requires ConfigOk(f) && Writing(f, nTweak, keys, current, key, f.nHashFuncs, data)
    requires |keys| / f.nEntriesPerGeneration == current
    ensures Holds(f, nTweak, keys + [key], current, data)
  {
    hide Tag, TagAt, Hits;
    assert (keys + [key])[..|keys|] == keys;
  }

  lemma WritingStart(f: Config, nTweak: bv32, keys: seq<Key>, current: nat, key: Key, data: seq<bv64>)
    requires ConfigOk(f) && Holds(f, nTweak, keys, current, data)
    ensures Writing(f, nTweak, keys, current, key, 0, data)
  {
    hide Expected, TagAt;
  }

  /** Entering the next generation: what was written three generations before it is wiped. */
  ghost predicate Wiped(data: seq<bv64>, data': seq<bv64>, g: nat, n: nat)
    requires n % 2 == 0
  {
    && |data'| == |data| && n <= |data| && |data| % 2 == 0
    && (forall k :: 0 <= k < n / 2 ==> && data'[2 * k] == Kept(data[2 * k], Mask(data[2 * k], data[2 * k + 1], g))
                                       && data'[2 * k + 1] ==
                                            Kept(data[2 * k + 1], Mask(data[2 * k], data[2 * k + 1], g)))
    && (forall i :: n <= i < |data| ==> data'[i] == data[i])
  }

  lemma WipedHolds(f: Config, nTweak: bv32, keys: seq<Key>, current: nat, data: seq<bv64>, data': seq<bv64>)
    requires ConfigOk(f) && Holds(f, nTweak, keys, current, data)
    requires |keys| <= Inserted(current + 1, f.nEntriesPerGeneration)
    requires Wiped(data, data', GenerationTag(current + 1), |data|)
    ensures Holds(f, nTweak, keys, current + 1, data')
  {
    hide Tag, Mask, Kept, LastWrite, Hits;
    var g := GenerationTag(current + 1);
    forall p: Place | p.pair < f.pairs
      ensures TagAt(data', p) == Expected(f, nTweak, keys, current + 1, p)
    {
      WipeTag(data[2 * p.pair], data[2 * p.pair + 1], p.bit, g);
      assert TagAt(data, p) == Expected(f, nTweak, keys, current, p);
      ExpectedNext(f, nTweak, keys, current, p);
    }
  }

  lemma ExpectedNext(f: Config, nTweak: bv32, keys: seq<Key>, current: nat, p: Place)
    requires ConfigOk(f) && |keys| <= (current + 1) * f.nEntriesPerGeneration
    ensures Expected(f, nTweak, keys, current + 1, p)
         == if Expected(f, nTweak, keys, current, p) == GenerationTag(current + 1) then 0
           else Expected(f, nTweak, keys, current, p)
  {
    hide LastWrite, Hits;
    var last := LastWrite(f, nTweak, keys, p);
    if last >= 0 {
      var j := last / f.nEntriesPerGeneration;
      QuotientBelow(last, f.nEntriesPerGeneration, current + 1);
      if j + 2 >= current {
        GenerationTags(j, current + 1);
      }
    }
  }

  // ----- What contains means -----

  /** The first insertion that is remembered: the current generation and the two before it are. */
  ghost function Horizon(each: nat, current: nat): nat {
    if current < 2 then 0 else Inserted(current - 2, each)
  }

  /** Two to three generations are remembered: at least the capacity, or everything, and at most
      one and a half times the capacity rounded up to even. */
  lemma HorizonWindow(each: nat, current: nat, n: nat, nElements: nat)
    requires each == (nElements + 1) / 2 && Inserted(current, each) <= n <= Inserted(current + 1, each)
    ensures Horizon(each, current) <= n
    ensures Horizon(each, current) == 0 || nElements <= 2 * each <= n - Horizon(each, current)
    ensures n - Horizon(each, current) <= 3 * each <= 3 * (nElements + 1) / 2
  {
    hide Inserted;
    InsertedNext(current, each);
    if current >= 2 {
      InsertedNext(current - 2, each);
      InsertedNext(current - 1, each);
    } else {
      InsertedNext(0, each);
      NothingInserted(each);
    }
  }

  lemma NothingInserted(each: nat)
    ensures Inserted(0, each) == 0
  {
  }

  /** A position counts as set exactly if it was written since the horizon. */
  lemma SetExactly(f: Config, nTweak: bv32, keys: seq<Key>, current: nat, p: Place)
    requires ConfigOk(f)
    ensures Expected(f, nTweak, keys, current, p) != 0 <==>
              0 <= Horizon(f.nEntriesPerGeneration, current) <= LastWrite(f, nTweak, keys, p)
  {
    hide LastWrite;
    var last, e := LastWrite(f, nTweak, keys, p), f.nEntriesPerGeneration;
    if last >= 0 && current >= 2 {
      if last >= Inserted(current - 2, e) {
        QuotientAbove(last, e, current - 2);
      } else {
        QuotientBelow(last, e, current - 2);
      }
    }
  }

  /** Every position of key was written within the generations that are kept. */
  ghost predicate Found(f: Config, nTweak: bv32, keys: seq<Key>, current: nat, key: Key)
    requires ConfigOk(f)
  {
    forall m :: 0 <= m < f.nHashFuncs ==> Expected(f, nTweak, keys, current, PlaceOf(f, nTweak, m, key)) != 0
  }

  /** Every key inserted since the horizon is found. */
  lemma RecentKeysFound(f: Config, nTweak: bv32, keys: seq<Key>, current: nat, i: nat)
    requires ConfigOk(f) && Horizon(f.nEntriesPerGeneration, current) <= i < |keys|
    ensures Found(f, nTweak, keys, current, keys[i])
  {
    hide LastWrite, PlaceOf, Expected, Horizon;
    forall m | 0 <= m < f.nHashFuncs
      ensures Expected(f, nTweak, keys, current, PlaceOf(f, nTweak, m, keys[i])) != 0
    {
      var p := PlaceOf(f, nTweak, m, keys[i]);
      assert Hits(f, nTweak, keys[i], f.nHashFuncs, p);
      SetExactly(f, nTweak, keys, current, p);
    }
  }

  /** A position that counts as set was written by a key inserted since the horizon. */
  lemma SetIsRecent(f: Config, nTweak: bv32, keys: seq<Key>, current: nat, p: Place)
    requires ConfigOk(f) && Expected(f, nTweak, keys, current, p) != 0
    ensures var last := LastWrite(f, nTweak, keys, p);
            && 0 <= Horizon(f.nEntriesPerGeneration, current) <= last < |keys|
            && Hits(f, nTweak, keys[last], f.nHashFuncs, p)
  {
    hide LastWrite, Hits, Expected;
    SetExactly(f, nTweak, keys, current, p);
  }

  lemma AllRecentFound(f: Config, nTweak: bv32, keys: seq<Key>, current: nat)
    requires ConfigOk(f)
    ensures forall i :: Horizon(f.nEntriesPerGeneration, current) <= i < |keys| ==>
              Found(f, nTweak, keys, current, keys[i])
  {
    hide Found, Horizon;
    forall i | Horizon(f.nEntriesPerGeneration, current) <= i < |keys|
      ensures Found(f, nTweak, keys, current, keys[i])
    {
      RecentKeysFound(f, nTweak, keys, current, i);
    }
  }

  lemma FoundIsRecent(f: Config, nTweak: bv32, keys: seq<Key>, current: nat, key: Key)
    requires ConfigOk(f)
    ensures Found(f, nTweak, keys, current, key) <==>
              forall m :: 0 <= m < f.nHashFuncs ==>
                Horizon(f.nEntriesPerGeneration, current) <= LastWrite(f, nTweak, keys, PlaceOf(f, nTweak, m, key))
  {
    hide Expected, LastWrite, PlaceOf, Horizon;
    forall m | 0 <= m < f.nHashFuncs
      ensures Expected(f, nTweak, keys, current, PlaceOf(f, nTweak, m, key)) != 0 <==>
                Horizon(f.nEntriesPerGeneration, current) <= LastWrite(f, nTweak, keys, PlaceOf(f, nTweak, m, key))
    {
      SetExactly(f, nTweak, keys, current, PlaceOf(f, nTweak, m, key));
    }
  }

  lemma FoundWhen(f: Config, nTweak: bv32, keys: seq<Key>, current: nat, key: Key)
    requires ConfigOk(f)
    ensures Found(f, nTweak, keys, current, key)
       <==> forall m :: 0 <= m < f.nHashFuncs ==> Expected(f, nTweak, keys, current, PlaceOf(f, nTweak, m, key)) != 0
  {
  }

  lemma ProbeIsExpected(f: Config, nTweak: bv32, keys: seq<Key>, current: nat, data: seq<bv64>, p: Place)
    requires ConfigOk(f) && Holds(f, nTweak, keys, current, data) && p.pair < f.pairs
    ensures |data| == 2 * f.pairs
    ensures Probe(data[2 * p.pair], data[2 * p.pair + 1], p.bit) <==> Expected(f, nTweak, keys, current, p) != 0
  {
    hide Expected, Probe, Tag;
    ProbeSeesTag(data[2 * p.pair], data[2 * p.pair + 1], p.bit);
    assert TagAt(data, p) == Expected(f, nTweak, keys, current, p);
  }

  lemma NothingWiped(data: seq<bv64>, g: nat)
    requires |data| % 2 == 0
    ensures Wiped(data, data, g, 0)
  {
  }

  lemma WipeStep(was: seq<bv64>, before: seq<bv64>, after: seq<bv64>, g: nat, p: nat)
    requires p % 2 == 0 && p + 1 < |was| && Wiped(was, before, g, p)
    requires |after| == |before| && forall i :: 0 <= i < |was| && i != p && i != p + 1 ==> after[i] == before[i]
    requires after[p] == Kept(before[p], Mask(before[p], before[p + 1], g))
    requires after[p + 1] == Kept(before[p + 1], Mask(before[p], before[p + 1], g))
    ensures Wiped(was, after, g, p + 2)
  {
    hide Kept, Mask;
    forall k | 0 <= k < (p + 2) / 2
      ensures && after[2 * k] == Kept(was[2 * k], Mask(was[2 * k], was[2 * k + 1], g))
              && after[2 * k + 1] == Kept(was[2 * k + 1], Mask(was[2 * k], was[2 * k + 1], g))
    {
      assert k < p / 2 || 2 * k == p;
    }
  }

  /** The keys of full generations. */
  ghost function Inserted(generations: nat, each: nat): nat {
    MulMono(0, generations, each);
    generations * each
  }

  lemma InsertedNext(generations: nat, each: nat)
    ensures Inserted(generations + 1, each) == Inserted(generations, each) + each
  {
    MulSucc(generations, each);
  }

  class RollingBloomFilter {
    const config: Config
    const nElements: nat
    const data: array<bv64>
    var nTweak: bv32
    var nEntriesThisGeneration: nat
    var nGeneration: nat

    /** The keys inserted since reset, and the number of the current generation. */
    ghost var keys: seq<Key>
    ghost var current: nat

    ghost predicate Counts()
      reads this
    {
      && ConfigOk(config) && config.nEntriesPerGeneration == (nElements + 1) / 2
      && nGeneration == GenerationTag(current)
      && nEntriesThisGeneration <= config.nEntriesPerGeneration
      && |keys| == Inserted(current, config.nEntriesPerGeneration) + nEntriesThisGeneration
    }

    ghost predicate Valid()
      reads this, data
    {
      Counts() && Holds(config, nTweak, keys, current, data[..])
    }

    constructor (nElements: nat, nHashFuncs: nat, pairs: nat, hash: (nat, bv32, Key) -> nat, nTweak: bv32)
      requires nElements > 0 && pairs > 0
      ensures Valid() && keys == [] && this.nElements == nElements && fresh(data)
    {
      this.nElements := nElements;
      config := Config(pairs, nHashFuncs, (nElements + 1) / 2, hash);
      data := new bv64[2 * pairs];
      new;
      Reset(nTweak);
    }

    method Reset(nTweak: bv32)
      requires ConfigOk(config) && config.nEntriesPerGeneration == (nElements + 1) / 2 &&
                 data.Length == 2 * config.pairs
      modifies this, data
      ensures Valid() && keys == []
    {
      hide Hits;
      this.nTweak, nEntriesThisGeneration, nGeneration := nTweak, 0, 1;
      keys, current := [], 0;
      for i := 0 to data.Length
        invariant forall k :: 0 <= k < i ==> data[k] == 0
        modifies data
      {
        data[i] := 0;
      }
      NothingHeld(config, nTweak, data[..]);
    }

    /** Starts the next generation and wipes the one that had its number. */
    method NextGeneration()
      requires Valid() && nEntriesThisGeneration == config.nEntriesPerGeneration
      modifies this, data
      ensures Valid() && keys == old(keys) && nTweak == old(nTweak) && nEntriesThisGeneration == 0
    {
      hide Kept, Mask, Holds, Wiped, Inserted;
      nEntriesThisGeneration := 0;
      nGeneration := nGeneration + 1;
      if nGeneration == 4 {
        nGeneration := 1;
      }
      assert nGeneration == GenerationTag(current + 1);
      ghost var was := data[..];
      assert |was| == 2 * config.pairs by { HoldsSize(config, nTweak, keys, current, was); }
      WipeGeneration();
      InsertedNext(current, config.nEntriesPerGeneration);
      WipedHolds(config, nTweak, keys, current, was, data[..]);
      current := current + 1;
    }

    /** The wiping loop. */
    method WipeGeneration()
      requires 1 <= nGeneration <= 3 && data.Length == 2 * config.pairs
      modifies data
      ensures Wiped(old(data[..]), data[..], nGeneration, data.Length)
    {
      hide Kept, Mask, Wiped;
      ghost var was := data[..];
      NothingWiped(was, nGeneration);
      var p := 0;
      while p < data.Length
        invariant p % 2 == 0 && p <= data.Length == 2 * config.pairs
        invariant Wiped(was, data[..], nGeneration, p)
        modifies data
      {
        ghost var before := data[..];
        var p1, p2 := data[p], data[p + 1];
        var mask := Mask(p1, p2, nGeneration);
        data[p] := Kept(p1, mask);
        data[p + 1] := Kept(p2, mask);
        WipeStep(was, before, data[..], nGeneration, p);
        p := p + 2;
      }
    }

    method Insert(key: Key)
      requires Valid()
      modifies this, data
      ensures Valid() && keys == old(keys) + [key] && nTweak == old(nTweak)
    {
      hide Holds, Writing, PlaceOf, Put;
      if nEntriesThisGeneration == config.nEntriesPerGeneration {
        NextGeneration();
      }
      QuotientAbove(|keys|, config.nEntriesPerGeneration, current);
      MulSucc(current, config.nEntriesPerGeneration);
      QuotientBelow(|keys|, config.nEntriesPerGeneration, current + 1);
      nEntriesThisGeneration := nEntriesThisGeneration + 1;
      WritingStart(config, nTweak, keys, current, key, data[..]);
      HoldsSize(config, nTweak, keys, current, data[..]);
      for n := 0 to config.nHashFuncs
        invariant data.Length == 2 * config.pairs
        invariant Writing(config, nTweak, keys, current, key, n, data[..])
        modifies data
      {
        ghost var before := data[..];
        var p := PlaceOf(config, nTweak, n, key);
        data[2 * p.pair] := Put(data[2 * p.pair], p.bit, nGeneration % 2 == 1);
        data[2 * p.pair + 1] := Put(data[2 * p.pair + 1], p.bit, nGeneration / 2 == 1);
        assert Wrote(before, data[..], p, nGeneration);
        WritingStep(config, nTweak, keys, current, key, n, before, data[..]);
      }
      WritingDone(config, nTweak, keys, current, key, data[..]);
      keys := keys + [key];
    }

    /** Found exactly if every position was written since the horizon, so every key inserted
        since then is found; those are at least the last nElements keys. */
    method Contains(key: Key) returns (r: bool)
      requires Valid()
      ensures r <==> Found(config, nTweak, keys, current, key)
      ensures r <==> forall m :: 0 <= m < config.nHashFuncs ==>
                       Horizon(config.nEntriesPerGeneration, current) <=
                         LastWrite(config, nTweak, keys, PlaceOf(config, nTweak, m, key))
      ensures forall i :: Horizon(config.nEntriesPerGeneration, current) <= i < |keys| && keys[i] == key ==> r
      ensures forall i :: 0 <= i < |keys| <= i + nElements && keys[i] == key ==> r
    {
      hide PlaceOf, Expected, LastWrite, Holds, Found, Probe, Inserted, Horizon;
      InsertedNext(current, config.nEntriesPerGeneration);
      HorizonWindow(config.nEntriesPerGeneration, current, |keys|, nElements);
      AllRecentFound(config, nTweak, keys, current);
      FoundIsRecent(config, nTweak, keys, current, key);
      for n := 0 to config.nHashFuncs
        invariant forall m :: 0 <= m < n ==>
                    Expected(config, nTweak, keys, current, PlaceOf(config, nTweak, m, key)) != 0
      {
        var p := PlaceOf(config, nTweak, n, key);
        ProbeIsExpected(config, nTweak, keys, current, data[..], p);
        if !Probe(data[2 * p.pair], data[2 * p.pair + 1], p.bit) {
          FoundWhen(config, nTweak, keys, current, key);
          return false;
        }
      }
      FoundWhen(config, nTweak, keys, current, key);
      return true;
    }
  }

  lemma NothingHeld(f: Config, nTweak: bv32, data: seq<bv64>)
    requires ConfigOk(f) && |data| == 2 * f.pairs && forall k :: 0 <= k < |data| ==> data[k] == 0
    ensures Holds(f, nTweak, [], 0, data)
  {
    forall p: Place | p.pair < f.pairs
      ensures TagAt(data, p) == Expected(f, nTweak, [], 0, p)
    {
      NoBits(p.bit);
    }
  }

  lemma NoBits(c: bv6)
    ensures !Bit(0, c)
  {}

  lemma HoldsSize(f: Config, nTweak: bv32, keys: seq<Key>, current: nat, data: seq<bv64>)
    requires ConfigOk(f) && Holds(f, nTweak, keys, current, data)
    ensures |data| == 2 * f.pairs
  {
  }
}
