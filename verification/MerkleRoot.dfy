/** ComputeMerkleRoot (src/consensus/merkle.cpp:48-133): the root of a block in one pass over
    the leaves and constant space, and the flag that guards against the lists that share a
    root (CVE-2012-2459). Merkle branches are not part of this model. */
module MerkleRoot {
  import opened Merkle
  import opened MerkleLevels
  import opened Powers

  // ----- Complete nodes -----

  /** The number of nodes at a level all of whose leaves are among the first c. */
  function Part(c: nat, level: nat): nat {
    hide Pow2;
    c / Pow2(level)
  }

  lemma PartNext(c: nat, level: nat)
    ensures Part(c, level + 1) == Part(c, level) / 2
  {
    var p := Pow2(level);
    var q := c / p;
    assert c == q * p + c % p;
    assert (q / 2) * (2 * p) == (2 * (q / 2)) * p by { TwiceMul(q / 2, p); }
    if q % 2 == 1 {
      MulSucc(q - 1, p);
      DivModUnique(c, 2 * p, q / 2, c % p + p);
    } else {
      DivModUnique(c, 2 * p, q / 2, c % p);
    }
  }

  lemma PartZero(c: nat)
    ensures Part(c, 0) == c
  {}

  /** The last c % 2^level leaves are missing. */
  ghost predicate Aligned(c: nat, level: nat) {
    forall j :: 0 <= j < level ==> Part(c, j) % 2 == 0
  }

  lemma {:induction false} PartBefore(c: nat, level: nat)
    requires c > 0
    ensures Part(c - 1, level) == if Aligned(c, level) then Part(c, level) - 1 else Part(c, level)
    ensures Aligned(c, level) ==> Part(c, level) > 0
  {
    hide Part;
    if level == 0 {
      PartZero(c);
      PartZero(c - 1);
    } else {
      PartBefore(c, level - 1);
      PartNext(c, level - 1);
      PartNext(c - 1, level - 1);
      assert Aligned(c, level) <==> Aligned(c, level - 1) && Part(c, level - 1) % 2 == 0;
    }
  }

  lemma {:induction false} PartBound(c: nat, n: nat, level: nat)
    requires c <= n
    ensures Part(c, level) <= CalcTreeWidth(n, level)
  {
    hide Part, CalcTreeWidth;
    if level == 0 {
      PartZero(c);
      WidthZero(n);
    } else {
      PartBound(c, n, level - 1);
      PartNext(c, level - 1);
      WidthHalves(n, level - 1);
    }
  }

  lemma LevelBound(c: nat, level: nat)
    requires c <= 0x8000_0000 && Part(c, level) > 0
    ensures level < 32
  {
    if level >= 32 {
      Pow2Mono(32, level);
      TopPower();
    }
  }

  lemma TopPower()
    ensures Pow2(31) == 0x8000_0000 && Pow2(32) == 0x1_0000_0000
  {
    hide Pow2;
    BytePower();
    Pow2Add(8, 8);
    Pow2Add(16, 16);
    Pow2Next(31);
  }

  lemma BytePower()
    ensures Pow2(8) == 0x100
  {
    assert Pow2(4) == 16;
    Pow2Add(4, 4);
  }

  // ----- The nodes that are kept -----

  ghost function Node(hash: (Digest, Digest) -> Digest, v: seq<Digest>, level: nat, pos: int): Digest {
    if 0 <= pos < CalcTreeWidth(|v|, level) then CalcHash(hash, v, level, pos) else 0
  }

  lemma NodeUp(hash: (Digest, Digest) -> Digest, v: seq<Digest>, level: nat, pos: nat)
    requires pos < CalcTreeWidth(|v|, level + 1)
    ensures Node(hash, v, level + 1, pos) ==
              if 2 * pos + 1 < CalcTreeWidth(|v|, level)
              then hash(Node(hash, v, level, 2 * pos), Node(hash, v, level, 2 * pos + 1))
              else hash(Node(hash, v, level, 2 * pos), Node(hash, v, level, 2 * pos))
  {
    hide CalcTreeWidth;
    Children(|v|, level + 1, pos);
  }

  lemma NodeLeaf(hash: (Digest, Digest) -> Digest, v: seq<Digest>, pos: nat)
    requires pos < |v|
    ensures Node(hash, v, 0, pos) == v[pos]
  {
    hide CalcTreeWidth;
    WidthZero(|v|);
    LeafHash(hash, v, pos);
  }

  /** For every one in the binary form of c, inner holds the last complete node of that level. */
  ghost predicate Holds(hash: (Digest, Digest) -> Digest, v: seq<Digest>, inner: seq<Digest>, c: nat) {
    && |inner| == 32
    && forall l :: 0 <= l < 32 && Part(c, l) % 2 == 1 ==> inner[l] == Node(hash, v, l, Part(c, l) - 1)
  }

  ghost predicate Same(hash: (Digest, Digest) -> Digest, v: seq<Digest>, level: nat, k: nat) {
    Node(hash, v, level, 2 * k) == Node(hash, v, level, 2 * k + 1)
  }

  /** Two complete nodes among the first c leaves form a pair of equals. */
  ghost predicate Flagged(hash: (Digest, Digest) -> Digest, v: seq<Digest>, c: nat) {
    exists l: nat, k: nat :: 2 * k + 2 <= Part(c, l) && Same(hash, v, l, k)
  }

  /** Such a pair ends with leaf c, below the level. */
  ghost predicate FlaggedNow(hash: (Digest, Digest) -> Digest, v: seq<Digest>, c: nat, level: nat) {
    exists l: nat, k: nat :: l < level && 2 * k + 2 == Part(c, l) && Same(hash, v, l, k)
  }

  lemma FlaggedNext(hash: (Digest, Digest) -> Digest, v: seq<Digest>, c: nat, level: nat)
    requires c > 0 && Aligned(c, level) && Part(c, level) % 2 == 1
    ensures Flagged(hash, v, c) <==> Flagged(hash, v, c - 1) || FlaggedNow(hash, v, c, level)
  {
    hide Part, Node, Same;
    if Flagged(hash, v, c) {
      var l: nat, k: nat :| 2 * k + 2 <= Part(c, l) && Same(hash, v, l, k);
      PartBefore(c, l);
      if Part(c - 1, l) < 2 * k + 2 {
        assert 2 * k + 2 == Part(c, l) && l < level;
      }
    }
    if Flagged(hash, v, c - 1) {
      var l: nat, k: nat :| 2 * k + 2 <= Part(c - 1, l) && Same(hash, v, l, k);
      PartBefore(c, l);
    }
  }

  lemma FlaggedStep(hash: (Digest, Digest) -> Digest, v: seq<Digest>, c: nat, level: nat)
    requires Part(c, level) % 2 == 0 && Part(c, level) > 0
    ensures FlaggedNow(hash, v, c, level + 1) <==>
              FlaggedNow(hash, v, c, level) ||
                Node(hash, v, level, Part(c, level) - 2) == Node(hash, v, level, Part(c, level) - 1)
  {
    hide Part, Node;
    var k: nat := Part(c, level) / 2 - 1;
    if Same(hash, v, level, k) {
      assert FlaggedNow(hash, v, c, level + 1);
    }
    if FlaggedNow(hash, v, c, level + 1) && !FlaggedNow(hash, v, c, level) {
      var l: nat, k': nat :| l < level + 1 && 2 * k' + 2 == Part(c, l) && Same(hash, v, l, k');
      assert l == level && k' == k;
    }
  }

  lemma HoldsNext(hash: (Digest, Digest) -> Digest, v: seq<Digest>, inner: seq<Digest>, c: nat, level: nat)
    requires c > 0 && Holds(hash, v, inner, c - 1) && level < 32
    requires Aligned(c, level) && Part(c, level) % 2 == 1
    ensures Holds(hash, v, inner[level := Node(hash, v, level, Part(c, level) - 1)], c)
  {
    hide Part, Node;
    forall l | 0 <= l < 32 && Part(c, l) % 2 == 1 && l != level ensures Part(c, l) == Part(c - 1, l) {
      PartBefore(c, l);
    }
  }

  lemma PairComplete(hash: (Digest, Digest) -> Digest, v: seq<Digest>, c: nat, level: nat)
    requires 0 < c <= |v| && Aligned(c, level + 1)
    ensures var k := Part(c, level);
            && k >= 2 && k % 2 == 0 && Part(c - 1, level) == k - 1
            && Node(hash, v, level + 1, Part(c, level + 1) - 1) ==
                 hash(Node(hash, v, level, k - 2), Node(hash, v, level, k - 1))
  {
    hide Part, Node, CalcTreeWidth;
    PartBefore(c, level);
    PartNext(c, level);
    PartBound(c, |v|, level);
    PartBound(c, |v|, level + 1);
    NodeUp(hash, v, level, Part(c, level + 1) - 1);
  }

  // ----- The computation -----

  /** One round of the first loop: leaf number count is combined with the nodes it completes. */
  method AddLeaf(hash: (Digest, Digest) -> Digest, leaves: seq<Digest>, count: nat, inner: array<Digest>)
    returns (mutated: bool)
    requires inner.Length == 32 && 0 < count <= |leaves| <= 0x8000_0000
    requires Holds(hash, leaves, inner[..], count - 1)
    modifies inner
    ensures Holds(hash, leaves, inner[..], count)
    ensures Flagged(hash, leaves, count) <==> Flagged(hash, leaves, count - 1) || mutated
  {
    hide Part, Node, CalcTreeWidth, Holds, Flagged, FlaggedNow;
    var h := leaves[count - 1];
    var level := 0;
    mutated := false;
    PartZero(count);
    NodeLeaf(hash, leaves, count - 1);
    NothingFlagged(hash, leaves, count);
    while IsZero(count, level)
      invariant inner[..] == old(inner[..]) && level < 32 && Aligned(count, level)
      invariant h == Node(hash, leaves, level, Part(count, level) - 1)
      invariant mutated <==> FlaggedNow(hash, leaves, count, level)
      decreases 32 - level
    {
      PairComplete(hash, leaves, count, level);
      HoldsAt(hash, leaves, inner[..], count - 1, level);
      FlaggedStep(hash, leaves, count, level);
      if inner[level] == h {
        mutated := true;
      }
      h := hash(inner[level], h);
      PartBefore(count, level + 1);
      LevelBound(count, level + 1);
      level := level + 1;
    }
    HoldsNext(hash, leaves, inner[..], count, level);
    FlaggedNext(hash, leaves, count, level);
    inner[level] := h;
    assert inner[..] == old(inner[..])[level := h];
  }

  /** Whether bit number level of count is zero. */
  predicate IsZero(count: nat, level: nat) { Part(count, level) % 2 == 0 }

  lemma NothingFlagged(hash: (Digest, Digest) -> Digest, v: seq<Digest>, c: nat)
    ensures !FlaggedNow(hash, v, c, 0)
  {}

  lemma HoldsAt(hash: (Digest, Digest) -> Digest, v: seq<Digest>, inner: seq<Digest>, c: nat, l: nat)
    requires Holds(hash, v, inner, c) && l < 32 && Part(c, l) % 2 == 1
    ensures |inner| == 32 && inner[l] == Node(hash, v, l, Part(c, l) - 1)
  {}

  // ----- The final sweep -----

  lemma PartOf(w: nat, level: nat)
    ensures Part(w * Pow2(level), level) == w
  {
    DivModUnique(w * Pow2(level), Pow2(level), w, 0);
  }

  lemma PartUp(w: nat, level: nat)
    requires w % 2 == 0
    ensures w * Pow2(level) == (w / 2) * Pow2(level + 1)
  {
    TwiceMul(w / 2, Pow2(level));
  }

  /** The width of a level, and how many of its nodes are complete. */
  lemma {:induction false} WidthPart(n: nat, level: nat)
    ensures CalcTreeWidth(n, level) == if Aligned(n, level) then Part(n, level) else Part(n, level) + 1
    ensures level <= 31 && n <= 0x8000_0000 ==> CalcTreeWidth(n, level) <= Pow2(31 - level)
  {
    hide Part, CalcTreeWidth, Pow2;
    if level == 0 {
      PartZero(n);
      WidthZero(n);
      TopPower();
    } else {
      WidthPart(n, level - 1);
      WidthHalves(n, level - 1);
      PartNext(n, level - 1);
      assert Aligned(n, level) <==> Aligned(n, level - 1) && Part(n, level - 1) % 2 == 0;
      if level <= 31 { Pow2Next(31 - level); }
    }
  }

  /** The state of the sweep: h is the last node of the level, and count is the number of
      leaves that would make it complete. */
  ghost predicate Sweeping(hash: (Digest, Digest) -> Digest, v: seq<Digest>, count: nat, level: nat, h: Digest) {
    var width := CalcTreeWidth(|v|, level);
    && 1 <= width && level <= 31 && Height(|v|) == level + Height(width)
    && count == width * Pow2(level)
    && h == Node(hash, v, level, width - 1)
  }

  lemma SweepUp(hash: (Digest, Digest) -> Digest, v: seq<Digest>, count: nat, level: nat, h: Digest)
    requires Sweeping(hash, v, count, level, h) && |v| <= 0x8000_0000 && CalcTreeWidth(|v|, level) > 1
    ensures var width := CalcTreeWidth(|v|, level);
            && Part(count, level) == width && CalcTreeWidth(|v|, level + 1) < width && Pow2(level) < count
            && (width % 2 == 1 ==> Sweeping(hash, v, count + Pow2(level), level + 1, hash(h, h)))
            && (width % 2 == 0 ==>
                  Sweeping(hash, v, count, level + 1, hash(Node(hash, v, level, width - 2), h)))
  {
    hide Part, CalcTreeWidth, Pow2, Node;
    var width := CalcTreeWidth(|v|, level);
    PartOf(width, level);
    WidthHalves(|v|, level);
    MulMono(2, width, Pow2(level));
    WidthPart(|v|, level);
    if level == 31 { Pow2Zero(); }
    NodeUp(hash, v, level, CalcTreeWidth(|v|, level + 1) - 1);
    if width % 2 == 1 {
      MulSucc(width, Pow2(level));
      PartUp(width + 1, level);
    } else {
      PartUp(width, level);
    }
  }

  lemma SweepAt(hash: (Digest, Digest) -> Digest, v: seq<Digest>, count: nat, level: nat, h: Digest)
    requires Sweeping(hash, v, count, level, h) && 0 < |v| <= 0x8000_0000
    ensures Part(count, level) == CalcTreeWidth(|v|, level) > 0 && level <= 31
    ensures CalcTreeWidth(|v|, level) == 1 <==> count == Pow2(level)
    ensures level == 31 ==> CalcTreeWidth(|v|, level) == 1
    ensures CalcTreeWidth(|v|, level) == 1 ==> h == Root(hash, v)
  {
    hide Part, CalcTreeWidth, Pow2, Root;
    var width := CalcTreeWidth(|v|, level);
    PartOf(width, level);
    if width > 1 { MulMono(2, width, Pow2(level)); }
    WidthPart(|v|, level);
    Pow2Zero();
    CalcHashIsRoot(hash, v);
  }

  lemma Pow2Zero()
    ensures Pow2(0) == 1
  {}

  /** The second part of MerkleComputation. */
  method Sweep(hash: (Digest, Digest) -> Digest, leaves: seq<Digest>, inner: array<Digest>) returns (h: Digest)
    requires 0 < |leaves| <= 0x8000_0000 && Holds(hash, leaves, inner[..], |leaves|)
    ensures h == Root(hash, leaves)
  {
    hide Part, Node, CalcTreeWidth, Holds, Pow2, Root, Height, Sweeping;
    var level := 0;
    var count: nat := |leaves|;
    while IsZero(count, level)
      invariant level < 32 && Aligned(count, level)
      decreases 32 - level
    {
      PartBefore(count, level + 1);
      LevelBound(count, level + 1);
      level := level + 1;
    }
    HoldsAt(hash, leaves, inner[..], count, level);
    h := inner[level];
    SweepStart(hash, leaves, level);
    while count != Pow2(level)
      invariant Sweeping(hash, leaves, count, level, h) && !IsZero(count, level)
      decreases 31 - level
    {
      SweepAt(hash, leaves, count, level, h);
      SweepUp(hash, leaves, count, level, h);
      h := hash(h, h);
      count := count + Pow2(level);
      level := level + 1;
      while IsZero(count, level)
        invariant Sweeping(hash, leaves, count, level, h) && !Aligned(|leaves|, level)
        decreases 31 - level
      {
        SweepAt(hash, leaves, count, level, h);
        SweepUp(hash, leaves, count, level, h);
        WidthPart(|leaves|, level);
        HoldsAt(hash, leaves, inner[..], |leaves|, level);
        h := hash(inner[level], h);
        level := level + 1;
      }
    }
    SweepAt(hash, leaves, count, level, h);
  }

  lemma {:induction false} AlignedExact(n: nat, level: nat)
    requires n > 0 && Aligned(n, level)
    ensures n == Part(n, level) * Pow2(level) && Part(n, level) > 0
    ensures Height(n) == level + Height(Part(n, level))
  {
    hide Part, Pow2;
    if level == 0 {
      PartZero(n);
      Pow2Zero();
    } else {
      AlignedExact(n, level - 1);
      PartNext(n, level - 1);
      PartUp(Part(n, level - 1), level - 1);
    }
  }

  lemma SweepStart(hash: (Digest, Digest) -> Digest, v: seq<Digest>, level: nat)
    requires |v| > 0 && level <= 31 && Aligned(|v|, level)
    ensures Sweeping(hash, v, |v|, level, Node(hash, v, level, Part(|v|, level) - 1))
  {
    hide Part, Pow2, CalcTreeWidth, Node, Height;
    AlignedExact(|v|, level);
    WidthPart(|v|, level);
  }

  /** ComputeMerkleRoot: the root that hashing level by level gives, and whether somewhere two
      complete nodes that form a pair are the same. */
  method ComputeMerkleRoot(hash: (Digest, Digest) -> Digest, leaves: seq<Digest>) returns (root: Digest, mutated: bool)
    requires |leaves| <= 0x8000_0000
    ensures leaves == [] ==> root == 0 && !mutated
    ensures leaves != [] ==> root == Root(hash, leaves)
    ensures mutated <==> Flagged(hash, leaves, |leaves|)
  {
    hide Holds, Flagged, Root;
    root, mutated := 0, false;
    var inner := new Digest[32];
    NothingHeld(hash, leaves, inner[..]);
    if leaves == [] {
      return;
    }
    var count := 0;
    while count < |leaves|
      invariant 0 <= count <= |leaves| && inner.Length == 32
      invariant Holds(hash, leaves, inner[..], count)
      invariant mutated <==> Flagged(hash, leaves, count)
    {
      count := count + 1;
      var twins := AddLeaf(hash, leaves, count, inner);
      mutated := mutated || twins;
    }
    root := Sweep(hash, leaves, inner);
  }

  lemma NothingHeld(hash: (Digest, Digest) -> Digest, v: seq<Digest>, inner: seq<Digest>)
    requires |inner| == 32
    ensures Holds(hash, v, inner, 0) && !Flagged(hash, v, 0)
  {
    forall l: nat ensures Part(0, l) == 0 { NoPart(l); }
  }

  lemma NoPart(level: nat)
    ensures Part(0, level) == 0
  {
    DivModUnique(0, Pow2(level), 0, 0);
  }

  // ----- What the flag means -----

  lemma {:induction false} PartHalf(n: nat, level: nat)
    ensures Part(n / 2, level) == Part(n, level + 1)
  {
    hide Part;
    PartNext(n, level);
    if level == 0 {
      PartZero(n);
      PartZero(n / 2);
    } else {
      PartHalf(n, level - 1);
      PartNext(n / 2, level - 1);
    }
  }

  /** The index of the last leaf of a complete node. */
  ghost function LastLeaf(level: nat, pos: nat): int { (pos + 1) * Pow2(level) - 1 }

  lemma {:induction false} LastLeafBelow(n: nat, level: nat, pos: nat)
    requires pos < Part(n, level)
    ensures 0 <= LastLeaf(level, pos) < n
  {
    hide Pow2;
    var p := Pow2(level);
    MulMono(1, pos + 1, p);
    MulMono(pos + 1, n / p, p);
    assert n == (n / p) * p + n % p;
  }

  lemma LastLeafRight(level: nat, pos: nat)
    ensures LastLeaf(level, 2 * pos + 1) == LastLeaf(level + 1, pos)
  {
    TwiceMul(pos + 1, Pow2(level));
  }

  /** Without a collision, complete nodes with the same hash end with the same leaf. */
  lemma {:induction false} SameLast(hash: (Digest, Digest) -> Digest, v: seq<Digest>, level: nat, a: nat, b: nat)
    requires Injective(hash) && a < Part(|v|, level) && b < Part(|v|, level)
    requires Node(hash, v, level, a) == Node(hash, v, level, b)
    ensures 0 <= LastLeaf(level, a) < |v| && 0 <= LastLeaf(level, b) < |v|
    ensures v[LastLeaf(level, a)] == v[LastLeaf(level, b)]
    decreases level
  {
    hide Part, Node, CalcTreeWidth, LastLeaf;
    LastLeafBelow(|v|, level, a);
    LastLeafBelow(|v|, level, b);
    if level == 0 {
      LeafItself(hash, v, a);
      LeafItself(hash, v, b);
    } else {
      PartNext(|v|, level - 1);
      PartBound(|v|, |v|, level);
      PartBound(|v|, |v|, level - 1);
      NodeUp(hash, v, level - 1, a);
      NodeUp(hash, v, level - 1, b);
      SameLast(hash, v, level - 1, 2 * a + 1, 2 * b + 1);
      LastLeafRight(level - 1, a);
      LastLeafRight(level - 1, b);
    }
  }

  lemma LeafItself(hash: (Digest, Digest) -> Digest, v: seq<Digest>, pos: nat)
    requires pos < Part(|v|, 0)
    ensures LastLeaf(0, pos) == pos < |v| && Node(hash, v, 0, pos) == v[pos]
  {
    PartZero(|v|);
    NodeLeaf(hash, v, pos);
  }

  lemma NodeOfNext(hash: (Digest, Digest) -> Digest, v: seq<Digest>, level: nat, pos: nat)
    requires pos < CalcTreeWidth(|v|, level + 1)
    ensures Node(hash, PairUp(hash, v), level, pos) == Node(hash, v, level + 1, pos)
  {
    hide CalcTreeWidth, CalcHash;
    LevelUp(hash, v, level, pos);
  }

  lemma TwinsFlagged(hash: (Digest, Digest) -> Digest, v: seq<Digest>, i: nat)
    requires 2 * i + 1 < |v| && v[2 * i] == v[2 * i + 1]
    ensures Flagged(hash, v, |v|)
  {
    hide Part, Node;
    PartZero(|v|);
    NodeLeaf(hash, v, 2 * i);
    NodeLeaf(hash, v, 2 * i + 1);
    assert Same(hash, v, 0, i);
  }

  /** A pair on the next level whose second node is not complete: its last digest is that of
      the odd leaf with itself, so that the other node ends with twins. */
  lemma OddFlagged(hash: (Digest, Digest) -> Digest, v: seq<Digest>, level: nat, k: nat)
    requires Injective(hash) && |v| % 2 == 1 && 2 * k + 2 == Part(|PairUp(hash, v)|, level)
    requires Aligned(|PairUp(hash, v)|, level) && Same(hash, PairUp(hash, v), level, k)
    ensures Flagged(hash, v, |v|)
  {
    hide Part, Node, Flagged, Aligned, LastLeaf, Injective;
    var w := PairUp(hash, v);
    SameLast(hash, w, level, 2 * k, 2 * k + 1);
    LastOfPair(|w|, level, k);
    var j := LastLeaf(level, 2 * k);
    SameArguments(hash, v[2 * j], v[2 * j + 1], v[|v| - 1]);
    TwinsFlagged(hash, v, j);
  }

  lemma SameArguments(hash: (Digest, Digest) -> Digest, a: Digest, b: Digest, c: Digest)
    requires Injective(hash) && hash(a, b) == hash(c, c)
    ensures a == b
  {}

  lemma LastOfPair(n: nat, level: nat, k: nat)
    requires n > 0 && 2 * k + 2 == Part(n, level) && Aligned(n, level)
    ensures LastLeaf(level, 2 * k) < LastLeaf(level, 2 * k + 1) == n - 1
  {
    hide Part, Pow2, Aligned;
    AlignedExact(n, level);
    MulSucc(2 * k + 1, Pow2(level));
  }

  lemma {:induction false} MutationFlagged(hash: (Digest, Digest) -> Digest, v: seq<Digest>)
    requires Injective(hash) && Mutated(hash, v)
    ensures Flagged(hash, v, |v|)
    decreases |v|
  {
    hide Part, Node, Flagged, Aligned, Injective;
    if Twins(v) {
      var i :| 0 <= 2 * i < |v| - 1 && v[2 * i] == v[2 * i + 1];
      TwinsFlagged(hash, v, i);
    } else {
      MutationFlagged(hash, PairUp(hash, v));
      var level, k := FlagFound(hash, PairUp(hash, v));
      NextFlagged(hash, v, level, k);
    }
  }

  lemma FlagFound(hash: (Digest, Digest) -> Digest, v: seq<Digest>) returns (level: nat, k: nat)
    requires Flagged(hash, v, |v|)
    ensures 2 * k + 2 <= Part(|v|, level) && Same(hash, v, level, k)
  {
    level, k :| 2 * k + 2 <= Part(|v|, level) && Same(hash, v, level, k);
  }

  lemma NextFlagged(hash: (Digest, Digest) -> Digest, v: seq<Digest>, level: nat, k: nat)
    requires Injective(hash) && |v| > 1
    requires 2 * k + 2 <= Part(|PairUp(hash, v)|, level) && Same(hash, PairUp(hash, v), level, k)
    ensures Flagged(hash, v, |v|)
  {
    hide Part, Node, Aligned, Injective, CalcTreeWidth;
    var w := PairUp(hash, v);
    PartHalf(|v|, level);
    PartBefore(|w|, level);
    if 2 * k + 2 <= Part(|v|, level + 1) {
      PartBound(|v|, |v|, level + 1);
      NodeOfNext(hash, v, level, 2 * k);
      NodeOfNext(hash, v, level, 2 * k + 1);
      assert Same(hash, v, level + 1, k);
    } else {
      OddFlagged(hash, v, level, k);
    }
  }

  /** Without a collision of the hash, the flag is set exactly if some pair anywhere in the
      tree has two equal members, complete or not. */
  lemma FlagExactly(hash: (Digest, Digest) -> Digest, v: seq<Digest>)
    requires Injective(hash)
    ensures Flagged(hash, v, |v|) <==> Mutated(hash, v)
  {
    hide Part, Flagged, Mutated, CalcTreeWidth, Injective, Node;
    if Flagged(hash, v, |v|) {
      var level, k := FlagFound(hash, v);
      PartBound(|v|, |v|, level);
      FlagMutates(hash, v, level, k);
    }
    if Mutated(hash, v) {
      MutationFlagged(hash, v);
    }
  }

  lemma FlagMutates(hash: (Digest, Digest) -> Digest, v: seq<Digest>, level: nat, k: nat)
    requires 2 * k + 1 < CalcTreeWidth(|v|, level) && Same(hash, v, level, k)
    ensures Mutated(hash, v)
  {
    hide Mutated, CalcTreeWidth, CalcHash;
    EqualChildren(hash, v, level, k);
  }

  /** The promise at src/consensus/merkle.cpp:43-45: without a collision of the hash, two
      different blocks with the same root cannot both pass the flag. */
  lemma UnflaggedRootsDiffer(hash: (Digest, Digest) -> Digest, u: seq<Digest>, v: seq<Digest>)
    requires Injective(hash) && |u| > 0 && |v| > 0 && LeavesOnly(hash, u) && LeavesOnly(hash, v) && u != v
    requires !Flagged(hash, u, |u|) && !Flagged(hash, v, |v|)
    ensures Root(hash, u) != Root(hash, v)
  {
    hide Part, Flagged, Mutated, Root, Injective, LeavesOnly;
    FlagExactly(hash, u);
    FlagExactly(hash, v);
    if Root(hash, u) == Root(hash, v) {
      RootDeterminesList(hash, u, v);
    }
  }

  // ----- How many leaves there may be -----

  lemma {:induction false} HeightPower(n: nat)
    requires n > 0
    ensures n <= Pow2(Height(n)) && (n > 1 ==> Pow2(Height(n)) <= 2 * (n - 1))
  {
    hide Pow2;
    if n > 1 {
      HeightPower((n + 1) / 2);
      Pow2Next(Height((n + 1) / 2));
      if n == 2 { Pow2Zero(); }
    } else {
      Pow2Zero();
    }
  }

  /** The final sweep rounds the number of leaves up to a power of two; 32 bits hold it exactly
      up to 2^31 leaves. */
  lemma CountFits(n: nat)
    requires n > 0
    ensures Pow2(Height(n)) < 0x1_0000_0000 <==> n <= 0x8000_0000
  {
    hide Pow2;
    HeightPower(n);
    TopPower();
    Pow2Zero();
    if n > 0x8000_0000 {
      if Height(n) <= 31 { Pow2Mono(Height(n), 31); }
      Pow2Mono(32, Height(n));
    }
  }
}
