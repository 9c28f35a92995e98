/** The Merkle root of a list of digests, level by level, as drawn in
    src/consensus/merkle.cpp:9-46: the digests are hashed in pairs, an odd one out with
    itself, until one is left. A digest is a number, 0 standing for the null hash; the
    two-to-one hash is a parameter. */
module MerkleLevels {
  type Digest = nat

  ghost predicate Injective(hash: (Digest, Digest) -> Digest) {
    forall a, b, c, d :: hash(a, b) == hash(c, d) ==> a == c && b == d
  }

  /** The next level of the tree. */
  ghost function PairUp(hash: (Digest, Digest) -> Digest, v: seq<Digest>): (r: seq<Digest>)
    ensures |r| == (|v| + 1) / 2
    ensures forall i :: 0 <= i < |r| ==> r[i] == hash(v[2 * i], if 2 * i + 1 < |v| then v[2 * i + 1] else v[2 * i])
  {
    seq((|v| + 1) / 2, i requires 0 <= i < (|v| + 1) / 2 =>
      hash(v[2 * i], if 2 * i + 1 < |v| then v[2 * i + 1] else v[2 * i]))
  }

  ghost function Root(hash: (Digest, Digest) -> Digest, v: seq<Digest>): Digest
    requires |v| > 0
    decreases |v|
  {
    if |v| == 1 then v[0] else Root(hash, PairUp(hash, v))
  }

  /** How often a width can be halved, rounding up, until it is at most one. */
  ghost function Height(width: nat): nat {
    if width <= 1 then 0 else 1 + Height((width + 1) / 2)
  }

  lemma LevelRoot(hash: (Digest, Digest) -> Digest, v: seq<Digest>)
    requires |v| > 0
    ensures |v| == 1 ==> Height(|v|) == 0 && Root(hash, v) == v[0]
    ensures |v| > 1 ==> Height(|v|) == 1 + Height(|PairUp(hash, v)|) && Root(hash, v) == Root(hash, PairUp(hash, v))
  {}

  /** On some level, the two members of a pair are the same. */
  ghost predicate Mutated(hash: (Digest, Digest) -> Digest, v: seq<Digest>)
    decreases |v|
  {
    |v| > 1 && (Twins(v) || Mutated(hash, PairUp(hash, v)))
  }

  ghost predicate Twins(v: seq<Digest>) {
    exists i :: 0 <= 2 * i < |v| - 1 && v[2 * i] == v[2 * i + 1]
  }

  lemma PairsEqual(hash: (Digest, Digest) -> Digest, u: seq<Digest>, v: seq<Digest>, i: nat)
    requires Injective(hash) && PairUp(hash, u) == PairUp(hash, v) && i < |u| && i < |v|
    ensures u[i] == v[i]
  {
    var k := i / 2;
    assert PairUp(hash, u)[k] == PairUp(hash, v)[k];
  }

  lemma OddPair(hash: (Digest, Digest) -> Digest, u: seq<Digest>, v: seq<Digest>)
    requires Injective(hash) && PairUp(hash, u) == PairUp(hash, v) && |u| < |v|
    ensures Twins(v)
  {
    var k := |u| / 2;
    assert |v| == |u| + 1 && |u| % 2 == 1;
    assert PairUp(hash, u)[k] == PairUp(hash, v)[k];
    assert v[2 * k] == v[2 * k + 1];
  }

  /** Without a collision of the hash, the next level of a list without twins fixes the list. */
  lemma PairUpInjective(hash: (Digest, Digest) -> Digest, u: seq<Digest>, v: seq<Digest>)
    requires Injective(hash) && PairUp(hash, u) == PairUp(hash, v) && !Twins(u) && !Twins(v)
    ensures u == v
  {
    hide Twins;
    if |u| < |v| {
      OddPair(hash, u, v);
    } else if |v| < |u| {
      OddPair(hash, v, u);
    }
    forall i | 0 <= i < |u| ensures u[i] == v[i] {
      PairsEqual(hash, u, v, i);
    }
  }

  lemma {:induction false} SameHeightSameList(hash: (Digest, Digest) -> Digest, u: seq<Digest>, v: seq<Digest>)
    requires Injective(hash) && |u| > 0 && |v| > 0 && Height(|u|) == Height(|v|)
    requires Root(hash, u) == Root(hash, v) && !Mutated(hash, u) && !Mutated(hash, v)
    ensures u == v
    decreases |u|
  {
    hide Twins, Injective;
    if |u| == 1 {
      assert |v| == 1;
    } else {
      assert |v| > 1;
      SameHeightSameList(hash, PairUp(hash, u), PairUp(hash, v));
      PairUpInjective(hash, u, v);
    }
  }

  // ----- Different heights -----

  /** No digest of the list is itself the hash of a pair. */
  ghost predicate LeavesOnly(hash: (Digest, Digest) -> Digest, v: seq<Digest>) {
    forall i, a, b :: 0 <= i < |v| ==> v[i] != hash(a, b)
  }

  /** A list of leaves cannot have the root of a taller tree: at its height it would be a
      level of that tree. */
  lemma {:induction false} NotTaller(hash: (Digest, Digest) -> Digest, u: seq<Digest>, v: seq<Digest>)
    requires Injective(hash) && |u| > 0 && |v| > 0 && LeavesOnly(hash, u)
    requires Root(hash, u) == Root(hash, v) && !Mutated(hash, u) && !Mutated(hash, v)
    ensures Height(|v|) <= Height(|u|)
    decreases |v|
  {
    hide Twins, Injective;
    if |v| > 1 {
      var w := PairUp(hash, v);
      NotTaller(hash, u, w);
      assert w[0] == hash(v[0], v[1]);
      if Height(|w|) == Height(|u|) {
        SameHeightSameList(hash, u, w);
      }
    }
  }

  /** Without a collision of the hash, two lists with the same root are the same, unless one
      of them has a pair of twins somewhere in its tree. */
  lemma RootDeterminesList(hash: (Digest, Digest) -> Digest, u: seq<Digest>, v: seq<Digest>)
    requires Injective(hash) && |u| > 0 && |v| > 0 && LeavesOnly(hash, u) && LeavesOnly(hash, v)
    requires Root(hash, u) == Root(hash, v) && !Mutated(hash, u) && !Mutated(hash, v)
    ensures u == v
  {
    hide Root, Mutated, LeavesOnly, Injective, Height;
    NotTaller(hash, u, v);
    NotTaller(hash, v, u);
    SameHeightSameList(hash, u, v);
  }

  /** The flaw that makes the condition on twins necessary: for every odd list with more than
      one digest, repeating the last one changes nothing above. */
  lemma RepeatedLast(hash: (Digest, Digest) -> Digest, v: seq<Digest>)
    requires |v| > 1 && |v| % 2 == 1
    ensures var w := v + [v[|v| - 1]]; Root(hash, w) == Root(hash, v) && Mutated(hash, w)
  {
    var w := v + [v[|v| - 1]];
    assert PairUp(hash, w) == PairUp(hash, v);
    var k := |v| / 2;
    assert w[2 * k] == w[2 * k + 1];
  }
}
