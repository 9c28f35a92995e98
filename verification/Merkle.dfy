/** CPartialMerkleTree (src/merkleblock.cpp, src/merkleblock.h): the depth-first encoding of
    a subset of a block's transaction ids that still authenticates the Merkle root. */
module Merkle {
  import opened Bytes
  import opened MerkleLevels
  import opened Powers

  // ----- The shape of the tree -----

  /** The number of nodes at a height. */
  function CalcTreeWidth(n: nat, height: nat): nat {
    (n + Pow2(height) - 1) / Pow2(height)
  }

  lemma WidthHalves(n: nat, height: nat)
    ensures CalcTreeWidth(n, height + 1) == (CalcTreeWidth(n, height) + 1) / 2
  {
    HalveDiv(n + Pow2(height) - 1, Pow2(height));
  }

  lemma WidthZero(n: nat)
    ensures CalcTreeWidth(n, 0) == n
  {}

  /** A node of the tree has a left child. */
  lemma Children(n: nat, height: nat, pos: nat)
    requires height > 0
    ensures pos < CalcTreeWidth(n, height) <==> 2 * pos < CalcTreeWidth(n, height - 1)
  {
    WidthHalves(n, height - 1);
  }

  method TreeHeight(n: nat) returns (nHeight: nat)
    ensures nHeight == Height(n)
  {
    nHeight := 0;
    WidthZero(n);
    while CalcTreeWidth(n, nHeight) > 1
      invariant Height(n) == nHeight + Height(CalcTreeWidth(n, nHeight))
      decreases CalcTreeWidth(n, nHeight)
    {
      WidthHalves(n, nHeight);
      nHeight := nHeight + 1;
    }
  }

  lemma {:induction false} RootIsSingle(n: nat, height: nat)
    requires n > 0 && height <= Height(n)
    ensures Height(CalcTreeWidth(n, height)) == Height(n) - height
    ensures CalcTreeWidth(n, height) >= 1
  {
    if height > 0 {
      RootIsSingle(n, height - 1);
      WidthHalves(n, height - 1);
    }
  }

  lemma RootWidth(n: nat)
    requires n > 0
    ensures CalcTreeWidth(n, Height(n)) == 1
  {
    RootIsSingle(n, Height(n));
  }

  // ----- The full Merkle tree -----

  function CalcHash(hash: (Digest, Digest) -> Digest, vTxid: seq<Digest>, height: nat, pos: nat): Digest
    requires pos < CalcTreeWidth(|vTxid|, height)
    decreases height
  {
    if height == 0 then
      WidthZero(|vTxid|);
      vTxid[pos]
    else
      Children(|vTxid|, height, pos);
      var left := CalcHash(hash, vTxid, height - 1, 2 * pos);
      var right := if 2 * pos + 1 < CalcTreeWidth(|vTxid|, height - 1)
                   then CalcHash(hash, vTxid, height - 1, 2 * pos + 1) else left;
      hash(left, right)
  }

  lemma {:induction false} WidthAbove(n: nat, height: nat)
    ensures CalcTreeWidth((n + 1) / 2, height) == CalcTreeWidth(n, height + 1)
  {
    WidthHalves(n, height);
    if height == 0 {
      WidthZero(n);
      WidthZero((n + 1) / 2);
    } else {
      WidthAbove(n, height - 1);
      WidthHalves((n + 1) / 2, height - 1);
    }
  }

  /** A node of the tree over a list is the node one lower in the tree over its next level. */
  lemma {:induction false} LevelUp(hash: (Digest, Digest) -> Digest, vTxid: seq<Digest>, height: nat, pos: nat)
    requires pos < CalcTreeWidth(|vTxid|, height + 1)
    ensures pos < CalcTreeWidth(|PairUp(hash, vTxid)|, height)
    ensures CalcHash(hash, vTxid, height + 1, pos) == CalcHash(hash, PairUp(hash, vTxid), height, pos)
    decreases height
  {
    hide CalcTreeWidth;
    WidthAbove(|vTxid|, height);
    Children(|vTxid|, height + 1, pos);
    if height == 0 {
      WidthZero(|vTxid|);
      WidthZero(|PairUp(hash, vTxid)|);
    } else {
      WidthAbove(|vTxid|, height - 1);
      LevelUp(hash, vTxid, height - 1, 2 * pos);
      if 2 * pos + 1 < CalcTreeWidth(|vTxid|, height) {
        LevelUp(hash, vTxid, height - 1, 2 * pos + 1);
      }
    }
  }

  /** The node at the top of the tree is the root that hashing level by level gives. */
  lemma {:induction false} CalcHashIsRoot(hash: (Digest, Digest) -> Digest, vTxid: seq<Digest>)
    requires |vTxid| > 0
    ensures CalcTreeWidth(|vTxid|, Height(|vTxid|)) == 1
    ensures CalcHash(hash, vTxid, Height(|vTxid|), 0) == Root(hash, vTxid)
    decreases |vTxid|
  {
    hide CalcTreeWidth, CalcHash, Height, Root;
    RootWidth(|vTxid|);
    LevelRoot(hash, vTxid);
    if |vTxid| == 1 {
      LeafHash(hash, vTxid, 0);
    } else {
      LevelUp(hash, vTxid, Height(|vTxid|) - 1, 0);
      CalcHashIsRoot(hash, PairUp(hash, vTxid));
    }
  }

  // ----- Decoding -----

  /** What one call of TraverseAndExtract yields. */
  datatype Extracted = Extracted(hash: Digest, nBitsUsed: nat, nHashUsed: nat, bad: bool,
                                 matches: seq<Digest>, indexes: seq<nat>)

  /** A node from its two children, which must differ. */
  function Both(hash: (Digest, Digest) -> Digest, l: Extracted, r: Extracted): Extracted {
    Extracted(hash(l.hash, r.hash), r.nBitsUsed, r.nHashUsed, l.bad || r.bad || r.hash == l.hash,
              l.matches + r.matches, l.indexes + r.indexes)
  }

  function Extract(hash: (Digest, Digest) -> Digest, n: nat, vBits: seq<bool>, vHash: seq<Digest>,
                   height: nat, pos: nat, nBitsUsed: nat, nHashUsed: nat): Extracted
    decreases height
  {
    if nBitsUsed >= |vBits| then
      Extracted(0, nBitsUsed, nHashUsed, true, [], [])
    else if height == 0 || !vBits[nBitsUsed] then
      if nHashUsed >= |vHash| then
        Extracted(0, nBitsUsed + 1, nHashUsed, true, [], [])
      else if height == 0 && vBits[nBitsUsed] then
        Extracted(vHash[nHashUsed], nBitsUsed + 1, nHashUsed + 1, false, [vHash[nHashUsed]], [pos])
      else
        Extracted(vHash[nHashUsed], nBitsUsed + 1, nHashUsed + 1, false, [], [])
    else
      var l := Extract(hash, n, vBits, vHash, height - 1, 2 * pos, nBitsUsed + 1, nHashUsed);
      if 2 * pos + 1 < CalcTreeWidth(n, height - 1) then
        Both(hash, l, Extract(hash, n, vBits, vHash, height - 1, 2 * pos + 1, l.nBitsUsed, l.nHashUsed))
      else
        l.(hash := hash(l.hash, l.hash))
  }

  lemma ExtractNode(hash: (Digest, Digest) -> Digest, n: nat, vBits: seq<bool>, vHash: seq<Digest>,
                    height: nat, pos: nat, nBitsUsed: nat, nHashUsed: nat)
    requires height > 0 && nBitsUsed < |vBits| && vBits[nBitsUsed]
    ensures var l := Extract(hash, n, vBits, vHash, height - 1, 2 * pos, nBitsUsed + 1, nHashUsed);
            Extract(hash, n, vBits, vHash, height, pos, nBitsUsed, nHashUsed) ==
              if 2 * pos + 1 < CalcTreeWidth(n, height - 1)
              then Both(hash, l, Extract(hash, n, vBits, vHash, height - 1, 2 * pos + 1, l.nBitsUsed, l.nHashUsed))
              else l.(hash := hash(l.hash, l.hash))
  {
    hide CalcTreeWidth;
  }

  /** Reported pairs that are true of a list of transaction ids. */
  ghost predicate TruePairs(vTxid: seq<Digest>, matches: seq<Digest>, indexes: seq<nat>) {
    && |matches| == |indexes|
    && forall i :: 0 <= i < |indexes| ==> indexes[i] < |vTxid| && matches[i] == vTxid[indexes[i]]
  }

  /** Soundness at a node: whatever the bits and hashes are, if the computed hash is that of
      the true tree, then everything reported below the node is true. */
  lemma {:induction false} ExtractSound(hash: (Digest, Digest) -> Digest, vTxid: seq<Digest>, vBits: seq<bool>,
                                        vHash: seq<Digest>, height: nat, pos: nat, nBitsUsed: nat, nHashUsed: nat)
    requires Injective(hash) && pos < CalcTreeWidth(|vTxid|, height)
    ensures var r := Extract(hash, |vTxid|, vBits, vHash, height, pos, nBitsUsed, nHashUsed);
            r.hash == CalcHash(hash, vTxid, height, pos) ==> TruePairs(vTxid, r.matches, r.indexes)
    decreases height
  {
    if nBitsUsed < |vBits| {
      if height == 0 {
        WidthZero(|vTxid|);
      } else if vBits[nBitsUsed] {
        Children(|vTxid|, height, pos);
        var l := Extract(hash, |vTxid|, vBits, vHash, height - 1, 2 * pos, nBitsUsed + 1, nHashUsed);
        ExtractSound(hash, vTxid, vBits, vHash, height - 1, 2 * pos, nBitsUsed + 1, nHashUsed);
        if 2 * pos + 1 < CalcTreeWidth(|vTxid|, height - 1) {
          ExtractSound(hash, vTxid, vBits, vHash, height - 1, 2 * pos + 1, l.nBitsUsed, l.nHashUsed);
        }
      }
    }
  }

  // ----- Encoding -----

  /** The matched positions from lo up to hi, in order. */
  ghost function Selected(vMatch: seq<bool>, lo: nat, hi: nat): (r: seq<nat>)
    ensures forall i :: 0 <= i < |r| ==> lo <= r[i] < hi && r[i] < |vMatch| && vMatch[r[i]]
    decreases hi
  {
    if hi <= lo then []
    else Selected(vMatch, lo, hi - 1) + if hi - 1 < |vMatch| && vMatch[hi - 1] then [hi - 1] else []
  }

  lemma {:induction false} SelectedSplit(vMatch: seq<bool>, lo: nat, mid: nat, hi: nat)
    requires lo <= mid <= hi
    ensures Selected(vMatch, lo, hi) == Selected(vMatch, lo, mid) + Selected(vMatch, mid, hi)
    decreases hi
  {
    if mid < hi {
      SelectedSplit(vMatch, lo, mid, hi - 1);
    }
  }

  lemma {:induction false} SelectedBeyond(vMatch: seq<bool>, lo: nat, hi: nat)
    requires |vMatch| <= lo
    ensures Selected(vMatch, lo, hi) == []
    decreases hi
  {
    if lo < hi {
      SelectedBeyond(vMatch, lo, hi - 1);
    }
  }

  /** The matched positions below a node. */
  ghost function Below(vMatch: seq<bool>, height: nat, pos: nat): seq<nat> {
    Selected(vMatch, pos * Pow2(height), (pos + 1) * Pow2(height))
  }

  ghost function Ids(vTxid: seq<Digest>, positions: seq<nat>): seq<Digest>
    requires forall i :: 0 <= i < |positions| ==> positions[i] < |vTxid|
  {
    seq(|positions|, i requires 0 <= i < |positions| => vTxid[positions[i]])
  }

  lemma MulPow(pos: nat, height: nat)
    requires height > 0
    ensures pos * Pow2(height) == (2 * pos) * Pow2(height - 1)
    ensures (pos + 1) * Pow2(height) == (2 * pos + 2) * Pow2(height - 1)
    ensures (2 * pos) * Pow2(height - 1) <= (2 * pos + 1) * Pow2(height - 1) <= (2 * pos + 2) * Pow2(height - 1)
  {
    var p := Pow2(height - 1);
    TwiceMul(pos, p);
    TwiceMul(pos + 1, p);
    MulSucc(2 * pos, p);
    MulSucc(2 * pos + 1, p);
  }

  lemma BeyondWidth(n: nat, height: nat, pos: nat)
    ensures pos < CalcTreeWidth(n, height) <==> pos * Pow2(height) < n
  {
    CeilDiv(n, Pow2(height), pos);
  }

  /** The matches below a node are those below its children. */
  lemma BelowChildren(vMatch: seq<bool>, height: nat, pos: nat)
    requires height > 0
    ensures Below(vMatch, height, pos) ==
            Below(vMatch, height - 1, 2 * pos)
            + if 2 * pos + 1 < CalcTreeWidth(|vMatch|, height - 1) then Below(vMatch, height - 1, 2 * pos + 1) else []
  {
    var p := Pow2(height - 1);
    MulPow(pos, height);
    SelectedSplit(vMatch, (2 * pos) * p, (2 * pos + 1) * p, (2 * pos + 2) * p);
    BeyondWidth(|vMatch|, height - 1, 2 * pos + 1);
    if 2 * pos + 1 >= CalcTreeWidth(|vMatch|, height - 1) {
      SelectedBeyond(vMatch, (2 * pos + 1) * p, (2 * pos + 2) * p);
    }
  }

  datatype Encoded = Encoded(bits: seq<bool>, hashes: seq<Digest>)

  ghost function Build(hash: (Digest, Digest) -> Digest, vTxid: seq<Digest>, vMatch: seq<bool>, height: nat,
                       pos: nat): Encoded
    requires pos < CalcTreeWidth(|vTxid|, height)
    decreases height
  {
    var parentOfMatch := Below(vMatch, height, pos) != [];
    if height == 0 || !parentOfMatch then
      Encoded([parentOfMatch], [CalcHash(hash, vTxid, height, pos)])
    else
      Children(|vTxid|, height, pos);
      var l := Build(hash, vTxid, vMatch, height - 1, 2 * pos);
      if 2 * pos + 1 < CalcTreeWidth(|vTxid|, height - 1) then
        var r := Build(hash, vTxid, vMatch, height - 1, 2 * pos + 1);
        Encoded([true] + l.bits + r.bits, l.hashes + r.hashes)
      else
        Encoded([true] + l.bits, l.hashes)
  }

  // ----- Completeness -----

  ghost predicate Distinct(vTxid: seq<Digest>) {
    forall i, j :: 0 <= i < j < |vTxid| ==> vTxid[i] != vTxid[j]
  }

  ghost function FirstLeaf(height: nat, pos: nat): nat {
    MulMono(0, pos, Pow2(height));
    pos * Pow2(height)
  }

  /** Equal node hashes at one height have equal first leaves. */
  lemma {:induction false} SameFirstLeaf(hash: (Digest, Digest) -> Digest, vTxid: seq<Digest>, height: nat, p: nat,
                                         q: nat)
    requires Injective(hash)
    requires p < CalcTreeWidth(|vTxid|, height) && q < CalcTreeWidth(|vTxid|, height)
    requires CalcHash(hash, vTxid, height, p) == CalcHash(hash, vTxid, height, q)
    ensures FirstLeaf(height, p) < |vTxid| && FirstLeaf(height, q) < |vTxid|
    ensures vTxid[FirstLeaf(height, p)] == vTxid[FirstLeaf(height, q)]
    decreases height
  {
    BeyondWidth(|vTxid|, height, p);
    BeyondWidth(|vTxid|, height, q);
    if height > 0 {
      Children(|vTxid|, height, p);
      Children(|vTxid|, height, q);
      MulPow(p, height);
      MulPow(q, height);
      SameFirstLeaf(hash, vTxid, height - 1, 2 * p, 2 * q);
    }
  }

  lemma SiblingsDiffer(hash: (Digest, Digest) -> Digest, vTxid: seq<Digest>, height: nat, pos: nat)
    requires Injective(hash) && Distinct(vTxid)
    requires 2 * pos + 1 < CalcTreeWidth(|vTxid|, height)
    ensures CalcHash(hash, vTxid, height, 2 * pos) != CalcHash(hash, vTxid, height, 2 * pos + 1)
  {
    hide CalcHash, Injective;
    MulSucc(2 * pos, Pow2(height));
    if CalcHash(hash, vTxid, height, 2 * pos) == CalcHash(hash, vTxid, height, 2 * pos + 1) {
      SameFirstLeaf(hash, vTxid, height, 2 * pos, 2 * pos + 1);
    }
  }

  /** Some visited inner node has two children with the same hash. */
  ghost predicate Clash(hash: (Digest, Digest) -> Digest, vTxid: seq<Digest>, vMatch: seq<bool>, height: nat, pos: nat)
    requires pos < CalcTreeWidth(|vTxid|, height)
    decreases height
  {
    if height == 0 || Below(vMatch, height, pos) == [] then false
    else
      Children(|vTxid|, height, pos);
      || Clash(hash, vTxid, vMatch, height - 1, 2 * pos)
      || (2 * pos + 1 < CalcTreeWidth(|vTxid|, height - 1) &&
          (|| Clash(hash, vTxid, vMatch, height - 1, 2 * pos + 1)
           || CalcHash(hash, vTxid, height - 1, 2 * pos) == CalcHash(hash, vTxid, height - 1, 2 * pos + 1)))
  }

  /** Distinct ids have no clash. */
  lemma {:induction false} DistinctNoClash(hash: (Digest, Digest) -> Digest, vTxid: seq<Digest>, vMatch: seq<bool>,
                                           height: nat, pos: nat)
    requires Injective(hash) && Distinct(vTxid) && pos < CalcTreeWidth(|vTxid|, height)
    ensures !Clash(hash, vTxid, vMatch, height, pos)
    decreases height
  {
    hide CalcHash, Below, Injective, Distinct, CalcTreeWidth;
    if height > 0 {
      Children(|vTxid|, height, pos);
      DistinctNoClash(hash, vTxid, vMatch, height - 1, 2 * pos);
      if 2 * pos + 1 < CalcTreeWidth(|vTxid|, height - 1) {
        DistinctNoClash(hash, vTxid, vMatch, height - 1, 2 * pos + 1);
        SiblingsDiffer(hash, vTxid, height - 1, pos);
      }
    }
  }

  /** Two equal children of one node are twins on their level. */
  lemma {:induction false} EqualChildren(hash: (Digest, Digest) -> Digest, vTxid: seq<Digest>, height: nat, pos: nat)
    requires 2 * pos + 1 < CalcTreeWidth(|vTxid|, height)
    requires CalcHash(hash, vTxid, height, 2 * pos) == CalcHash(hash, vTxid, height, 2 * pos + 1)
    ensures Mutated(hash, vTxid)
    decreases height
  {
    hide CalcTreeWidth, CalcHash;
    if height == 0 {
      LeafHash(hash, vTxid, 2 * pos);
      LeafHash(hash, vTxid, 2 * pos + 1);
    } else {
      LevelUp(hash, vTxid, height - 1, 2 * pos);
      LevelUp(hash, vTxid, height - 1, 2 * pos + 1);
      EqualChildren(hash, PairUp(hash, vTxid), height - 1, pos);
      SomeMutated(hash, vTxid);
    }
  }

  lemma SomeMutated(hash: (Digest, Digest) -> Digest, vTxid: seq<Digest>)
    requires Mutated(hash, PairUp(hash, vTxid))
    ensures Mutated(hash, vTxid)
  {}

  /** A block whose tree has no twins is never refused. */
  lemma {:induction false} ClashIsMutation(hash: (Digest, Digest) -> Digest, vTxid: seq<Digest>, vMatch: seq<bool>,
                                           height: nat, pos: nat)
    requires pos < CalcTreeWidth(|vTxid|, height) && Clash(hash, vTxid, vMatch, height, pos)
    ensures Mutated(hash, vTxid)
    decreases height
  {
    hide CalcHash, Below, CalcTreeWidth, Mutated;
    Children(|vTxid|, height, pos);
    if Clash(hash, vTxid, vMatch, height - 1, 2 * pos) {
      ClashIsMutation(hash, vTxid, vMatch, height - 1, 2 * pos);
    } else if Clash(hash, vTxid, vMatch, height - 1, 2 * pos + 1) {
      ClashIsMutation(hash, vTxid, vMatch, height - 1, 2 * pos + 1);
    } else {
      EqualChildren(hash, vTxid, height - 1, pos);
    }
  }

  /** Reading back what was built, anywhere in a longer pair of streams. */
  ghost predicate Holds(vBits: seq<bool>, vHash: seq<Digest>, b: nat, k: nat, e: Encoded) {
    && b + |e.bits| <= |vBits| && vBits[b..b + |e.bits|] == e.bits
    && k + |e.hashes| <= |vHash| && vHash[k..k + |e.hashes|] == e.hashes
  }

  lemma HoldsParts(vBits: seq<bool>, vHash: seq<Digest>, b: nat, k: nat, l: Encoded, r: Encoded)
    requires Holds(vBits, vHash, b, k, Encoded([true] + l.bits + r.bits, l.hashes + r.hashes))
    ensures vBits[b]
    ensures Holds(vBits, vHash, b + 1, k, l)
    ensures Holds(vBits, vHash, b + 1 + |l.bits|, k + |l.hashes|, r)
  {
    HeadParts(vBits, b, l.bits, r.bits);
    SliceParts(vHash, k, l.hashes, r.hashes);
  }

  lemma HeadParts(s: seq<bool>, i: nat, x: seq<bool>, y: seq<bool>)
    requires i + |[true] + x + y| <= |s| && s[i..i + |[true] + x + y|] == [true] + x + y
    ensures s[i] && s[i + 1..i + 1 + |x|] == x && s[i + 1 + |x|..i + 1 + |x| + |y|] == y
  {
    assert [true] + x + y == [true] + (x + y);
    SliceParts(s, i, [true], x + y);
    SliceParts(s, i + 1, x, y);
  }

  lemma SliceParts<A>(s: seq<A>, i: nat, x: seq<A>, y: seq<A>)
    requires i + |x + y| <= |s| && s[i..i + |x + y|] == x + y
    ensures s[i..i + |x|] == x && s[i + |x|..i + |x| + |y|] == y
    ensures x != [] ==> s[i] == x[0]
  {
    assert s[i..i + |x|] == s[i..i + |x + y|][..|x|];
    assert s[i + |x|..i + |x| + |y|] == s[i..i + |x + y|][|x|..];
  }

  /** What reading back the encoding of a node yields. */
  ghost function Expected(hash: (Digest, Digest) -> Digest, vTxid: seq<Digest>, vMatch: seq<bool>,
                          height: nat, pos: nat, b: nat, k: nat): Extracted
    requires |vMatch| == |vTxid| && pos < CalcTreeWidth(|vTxid|, height)
  {
    var e := Build(hash, vTxid, vMatch, height, pos);
    Extracted(CalcHash(hash, vTxid, height, pos), b + |e.bits|, k + |e.hashes|,
              Clash(hash, vTxid, vMatch, height, pos),
              Ids(vTxid, Below(vMatch, height, pos)), Below(vMatch, height, pos))
  }

  lemma ExtractLeaf(hash: (Digest, Digest) -> Digest, vTxid: seq<Digest>, vMatch: seq<bool>,
                    vBits: seq<bool>, vHash: seq<Digest>, height: nat, pos: nat, b: nat, k: nat)
    requires |vMatch| == |vTxid| && pos < CalcTreeWidth(|vTxid|, height)
    requires height == 0 || Below(vMatch, height, pos) == []
    requires Holds(vBits, vHash, b, k, Build(hash, vTxid, vMatch, height, pos))
    ensures Extract(hash, |vTxid|, vBits, vHash, height, pos, b, k) == Expected(hash, vTxid, vMatch, height, pos, b, k)
  {
    hide CalcHash;
    var e := Build(hash, vTxid, vMatch, height, pos);
    assert vBits[b] == vBits[b..b + 1][0] && vHash[k] == vHash[k..k + 1][0];
    assert e.bits[0] == (Below(vMatch, height, pos) != []);
    if height == 0 {
      WidthZero(|vTxid|);
      assert Selected(vMatch, pos, pos) == [];
      assert Below(vMatch, 0, pos) == if vMatch[pos] then [pos] else [];
      LeafHash(hash, vTxid, pos);
    }
  }

  lemma LeafHash(hash: (Digest, Digest) -> Digest, vTxid: seq<Digest>, pos: nat)
    requires pos < CalcTreeWidth(|vTxid|, 0)
    ensures pos < |vTxid| && CalcHash(hash, vTxid, 0, pos) == vTxid[pos]
  {}

  /** The encoding of an inner node is read back if those of its children are. */
  lemma ExtractInner(hash: (Digest, Digest) -> Digest, vTxid: seq<Digest>, vMatch: seq<bool>,
                     vBits: seq<bool>, vHash: seq<Digest>, height: nat, pos: nat, b: nat, k: nat)
    requires |vMatch| == |vTxid| && pos < CalcTreeWidth(|vTxid|, height)
    requires height > 0 && Below(vMatch, height, pos) != [] && b < |vBits| && vBits[b]
    requires 2 * pos < CalcTreeWidth(|vTxid|, height - 1)
    requires var l := Expected(hash, vTxid, vMatch, height - 1, 2 * pos, b + 1, k);
             && Extract(hash, |vTxid|, vBits, vHash, height - 1, 2 * pos, b + 1, k) == l
             && (2 * pos + 1 < CalcTreeWidth(|vTxid|, height - 1) ==>
                   Extract(hash, |vTxid|, vBits, vHash, height - 1, 2 * pos + 1, l.nBitsUsed, l.nHashUsed)
                     == Expected(hash, vTxid, vMatch, height - 1, 2 * pos + 1, l.nBitsUsed, l.nHashUsed))
    ensures Extract(hash, |vTxid|, vBits, vHash, height, pos, b, k) == Expected(hash, vTxid, vMatch, height, pos, b, k)
  {
    hide CalcTreeWidth, Expected, Both;
    if 2 * pos + 1 < CalcTreeWidth(|vTxid|, height - 1) {
      ExpectedBoth(hash, vTxid, vMatch, height, pos, b, k);
    } else {
      ExpectedLeft(hash, vTxid, vMatch, height, pos, b, k);
    }
  }

  lemma ExpectedBoth(hash: (Digest, Digest) -> Digest, vTxid: seq<Digest>, vMatch: seq<bool>, height: nat, pos: nat,
                     b: nat, k: nat)
    requires |vMatch| == |vTxid| && pos < CalcTreeWidth(|vTxid|, height)
    requires height > 0 && Below(vMatch, height, pos) != [] && 2 * pos + 1 < CalcTreeWidth(|vTxid|, height - 1)
    ensures var l := Expected(hash, vTxid, vMatch, height - 1, 2 * pos, b + 1, k);
            Expected(hash, vTxid, vMatch, height, pos, b, k) ==
              Both(hash, l, Expected(hash, vTxid, vMatch, height - 1, 2 * pos + 1, l.nBitsUsed, l.nHashUsed))
  {
    hide Below, CalcTreeWidth;
    BelowChildren(vMatch, height, pos);
  }

  lemma ExpectedLeft(hash: (Digest, Digest) -> Digest, vTxid: seq<Digest>, vMatch: seq<bool>, height: nat, pos: nat,
                     b: nat, k: nat)
    requires |vMatch| == |vTxid| && pos < CalcTreeWidth(|vTxid|, height) && height > 0
    requires Below(vMatch, height, pos) != []
    requires 2 * pos < CalcTreeWidth(|vTxid|, height - 1) <= 2 * pos + 1
    ensures var l := Expected(hash, vTxid, vMatch, height - 1, 2 * pos, b + 1, k);
            Expected(hash, vTxid, vMatch, height, pos, b, k) == l.(hash := hash(l.hash, l.hash))
  {
    hide Below, CalcTreeWidth;
    BelowChildren(vMatch, height, pos);
  }

  lemma {:induction false} ExtractBuilt(hash: (Digest, Digest) -> Digest, vTxid: seq<Digest>, vMatch: seq<bool>,
                                        vBits: seq<bool>, vHash: seq<Digest>, height: nat, pos: nat, b: nat, k: nat)
    requires |vMatch| == |vTxid| && pos < CalcTreeWidth(|vTxid|, height)
    requires Holds(vBits, vHash, b, k, Build(hash, vTxid, vMatch, height, pos))
    ensures Extract(hash, |vTxid|, vBits, vHash, height, pos, b, k) == Expected(hash, vTxid, vMatch, height, pos, b, k)
    decreases height
  {
    hide Extract, CalcHash, Below, Holds, Clash, CalcTreeWidth, Build, Expected;
    if height == 0 || Below(vMatch, height, pos) == [] {
      ExtractLeaf(hash, vTxid, vMatch, vBits, vHash, height, pos, b, k);
    } else {
      Children(|vTxid|, height, pos);
      BuildInner(hash, vTxid, vMatch, height, pos);
      var l := Build(hash, vTxid, vMatch, height - 1, 2 * pos);
      if 2 * pos + 1 < CalcTreeWidth(|vTxid|, height - 1) {
        var r := Build(hash, vTxid, vMatch, height - 1, 2 * pos + 1);
        HoldsParts(vBits, vHash, b, k, l, r);
        ExtractBuilt(hash, vTxid, vMatch, vBits, vHash, height - 1, 2 * pos, b + 1, k);
        ExtractBuilt(hash, vTxid, vMatch, vBits, vHash, height - 1, 2 * pos + 1, b + 1 + |l.bits|, k + |l.hashes|);
      } else {
        assert [true] + l.bits == [true] + l.bits + [] && l.hashes == l.hashes + [];
        HoldsParts(vBits, vHash, b, k, l, Encoded([], []));
        ExtractBuilt(hash, vTxid, vMatch, vBits, vHash, height - 1, 2 * pos, b + 1, k);
      }
      HoldsFits(vBits, vHash, b, k, Build(hash, vTxid, vMatch, height, pos));
      ExpectedUse(hash, vTxid, vMatch, height - 1, 2 * pos, b + 1, k);
      ExtractInner(hash, vTxid, vMatch, vBits, vHash, height, pos, b, k);
    }
  }

  lemma ExpectedUse(hash: (Digest, Digest) -> Digest, vTxid: seq<Digest>, vMatch: seq<bool>, height: nat, pos: nat,
                    b: nat, k: nat)
    requires |vMatch| == |vTxid| && pos < CalcTreeWidth(|vTxid|, height)
    ensures var e, x := Build(hash, vTxid, vMatch, height, pos), Expected(hash, vTxid, vMatch, height, pos, b, k);
            x.nBitsUsed == b + |e.bits| && x.nHashUsed == k + |e.hashes|
  {
    hide Build, Below, CalcTreeWidth;
  }

  lemma BuildInner(hash: (Digest, Digest) -> Digest, vTxid: seq<Digest>, vMatch: seq<bool>, height: nat, pos: nat)
    requires |vMatch| == |vTxid| && pos < CalcTreeWidth(|vTxid|, height) && height > 0
    requires 2 * pos < CalcTreeWidth(|vTxid|, height - 1) && Below(vMatch, height, pos) != []
    ensures var l := Build(hash, vTxid, vMatch, height - 1, 2 * pos);
            Build(hash, vTxid, vMatch, height, pos) ==
              if 2 * pos + 1 < CalcTreeWidth(|vTxid|, height - 1) then
                var r := Build(hash, vTxid, vMatch, height - 1, 2 * pos + 1);
                Encoded([true] + l.bits + r.bits, l.hashes + r.hashes)
              else Encoded([true] + l.bits, l.hashes)
  {
    hide Below, CalcTreeWidth;
  }

  lemma HoldsFits(vBits: seq<bool>, vHash: seq<Digest>, b: nat, k: nat, e: Encoded)
    requires Holds(vBits, vHash, b, k, e)
    ensures b + |e.bits| <= |vBits| && k + |e.hashes| <= |vHash|
  {}

  // ----- The documented size bounds (src/merkleblock.h:40-41) -----

  /** The number of leaves below a node. */
  ghost function Leaves(n: nat, height: nat, pos: nat): nat {
    var lo, hi := pos * Pow2(height), (pos + 1) * Pow2(height);
    if n <= lo then 0 else if n < hi then n - lo else Pow2(height)
  }

  lemma LeavesSplit(n: nat, height: nat, pos: nat)
    requires height > 0
    ensures Leaves(n, height, pos) ==
            Leaves(n, height - 1, 2 * pos)
            + if 2 * pos + 1 < CalcTreeWidth(n, height - 1) then Leaves(n, height - 1, 2 * pos + 1) else 0
  {
    MulPow(pos, height);
    MulSucc(2 * pos, Pow2(height - 1));
    MulSucc(2 * pos + 1, Pow2(height - 1));
    BeyondWidth(n, height - 1, 2 * pos + 1);
  }

  lemma LeavesPositive(n: nat, height: nat, pos: nat)
    requires pos < CalcTreeWidth(n, height)
    ensures Leaves(n, height, pos) >= 1
  {
    BeyondWidth(n, height, pos);
    MulSucc(pos, Pow2(height));
  }

  lemma {:induction false} BuildSize(hash: (Digest, Digest) -> Digest, vTxid: seq<Digest>, vMatch: seq<bool>,
                                     height: nat, pos: nat)
    requires |vMatch| == |vTxid| && pos < CalcTreeWidth(|vTxid|, height)
    ensures var e := Build(hash, vTxid, vMatch, height, pos);
            && 1 <= |e.hashes| <= |e.bits|
            && |e.hashes| <= Leaves(|vTxid|, height, pos)
            && |e.hashes| <= 1 + |Below(vMatch, height, pos)| * height
    decreases height
  {
    hide CalcTreeWidth, Below, CalcHash, Leaves;
    LeavesPositive(|vTxid|, height, pos);
    if height > 0 && Below(vMatch, height, pos) != [] {
      Children(|vTxid|, height, pos);
      BelowChildren(vMatch, height, pos);
      LeavesSplit(|vTxid|, height, pos);
      BuildSize(hash, vTxid, vMatch, height - 1, 2 * pos);
      var left := |Below(vMatch, height - 1, 2 * pos)|;
      var right := 0;
      if 2 * pos + 1 < CalcTreeWidth(|vTxid|, height - 1) {
        BuildSize(hash, vTxid, vMatch, height - 1, 2 * pos + 1);
        right := |Below(vMatch, height - 1, 2 * pos + 1)|;
      }
      Distribute(left, right, height);
    }
  }

  lemma Distribute(a: nat, b: nat, height: nat)
    requires height > 0
    ensures (a + b) * height == a * (height - 1) + b * (height - 1) + a + b
  {}

  /** The encoding stores at most one hash per transaction, and at most one per level on the
      path to each match besides one more. */
  lemma EncodingSize(hash: (Digest, Digest) -> Digest, vTxid: seq<Digest>, vMatch: seq<bool>)
    requires |vMatch| == |vTxid| > 0 && 0 < CalcTreeWidth(|vTxid|, Height(|vTxid|))
    ensures var e := Build(hash, vTxid, vMatch, Height(|vTxid|), 0);
            && |e.hashes| <= |e.bits|
            && |e.hashes| <= |vTxid|
            && |e.hashes| <= 1 + |Selected(vMatch, 0, |vTxid|)| * Height(|vTxid|)
  {
    BuildSize(hash, vTxid, vMatch, Height(|vTxid|), 0);
    RootMatches(vMatch);
  }

  /** Everything lies below the root. */
  lemma RootMatches(vMatch: seq<bool>)
    requires |vMatch| > 0
    ensures Below(vMatch, Height(|vMatch|), 0) == Selected(vMatch, 0, |vMatch|)
  {
    var n, p := |vMatch|, Pow2(Height(|vMatch|));
    RootWidth(n);
    BeyondWidth(n, Height(n), 1);
    SelectedSplit(vMatch, 0, n, p);
    SelectedBeyond(vMatch, n, p);
  }

  // ----- The number of flag bits (src/merkleblock.h:48 claims at most 2*N-1) -----

  /** The visited inner nodes that have only one child. */
  ghost function OnlyChildren(vMatch: seq<bool>, height: nat, pos: nat): nat
    decreases height
  {
    if height == 0 || Below(vMatch, height, pos) == [] then 0
    else if 2 * pos + 1 < CalcTreeWidth(|vMatch|, height - 1) then
      OnlyChildren(vMatch, height - 1, 2 * pos) + OnlyChildren(vMatch, height - 1, 2 * pos + 1)
    else 1 + OnlyChildren(vMatch, height - 1, 2 * pos)
  }

  /** With N hashes there are 2*N-1 flag bits and one more for each visited node with an
      only child; so the documented bound holds exactly when there is no such node. */
  lemma {:induction false} FlagBits(hash: (Digest, Digest) -> Digest, vTxid: seq<Digest>, vMatch: seq<bool>,
                                    height: nat, pos: nat)
    requires |vMatch| == |vTxid| && pos < CalcTreeWidth(|vTxid|, height)
    ensures var e := Build(hash, vTxid, vMatch, height, pos);
            |e.bits| == 2 * |e.hashes| - 1 + OnlyChildren(vMatch, height, pos)
    decreases height
  {
    hide CalcTreeWidth, Below, CalcHash;
    if height > 0 && Below(vMatch, height, pos) != [] {
      Children(|vTxid|, height, pos);
      FlagBits(hash, vTxid, vMatch, height - 1, 2 * pos);
      if 2 * pos + 1 < CalcTreeWidth(|vTxid|, height - 1) {
        FlagBits(hash, vTxid, vMatch, height - 1, 2 * pos + 1);
      }
    }
  }

  /** Three transactions with the last one matched need four bits for two hashes. */
  lemma FlagBitsExceed(hash: (Digest, Digest) -> Digest, vTxid: seq<Digest>)
    requires |vTxid| == 3 && 0 < CalcTreeWidth(3, 2)
    ensures var e := Build(hash, vTxid, [false, false, true], 2, 0);
            |e.bits| > 2 * |e.hashes| - 1
  {
    var vMatch := [false, false, true];
    FlagBits(hash, vTxid, vMatch, 2, 0);
    assert Pow2(0) == 1 && Pow2(1) == 2 && Pow2(2) == 4;
    assert CalcTreeWidth(3, 1) == 2 && CalcTreeWidth(3, 0) == 3;
    SelectedSplit(vMatch, 0, 2, 4);
    SelectedSplit(vMatch, 2, 3, 4);
    assert Selected(vMatch, 2, 3) == Selected(vMatch, 2, 2) + [2];
    assert Below(vMatch, 2, 0) != [] && Below(vMatch, 1, 1) != [];
    assert OnlyChildren(vMatch, 1, 1) >= 1;
  }

  // ----- Packing the flag bits into bytes (src/merkleblock.h:89-106) -----

  /** The bits of a byte string, eight per byte, least significant first. */
  ghost predicate Packs(vBytes: seq<bv8>, vBits: seq<bool>, n: nat)
    requires n <= |vBits|
  {
    forall p :: 0 <= p < 8 * |vBytes| ==> (BitAt(vBytes[p / 8], p % 8) <==> p < n && vBits[p])
  }

  method PackBits(vBits: seq<bool>) returns (vBytes: seq<bv8>)
    ensures |vBytes| == (|vBits| + 7) / 8
    ensures Packs(vBytes, vBits, |vBits|)
  {
    vBytes := seq((|vBits| + 7) / 8, _ => 0);
    forall p | 0 <= p < 8 * |vBytes| ensures !BitAt(vBytes[p / 8], p % 8) {
      ConstantBits(p % 8);
    }
    for p := 0 to |vBits|
      invariant |vBytes| == (|vBits| + 7) / 8
      invariant Packs(vBytes, vBits, p)
    {
      ghost var before := vBytes;
      if vBits[p] {
        vBytes := vBytes[p / 8 := vBytes[p / 8] | Mask(p % 8)];
      }
      forall q | 0 <= q < 8 * |vBytes| ensures BitAt(vBytes[q / 8], q % 8) <==> q < p + 1 && vBits[q] {
        SetBit(before[p / 8], p % 8, q % 8);
        assert q == p <==> q / 8 == p / 8 && q % 8 == p % 8;
      }
    }
  }

  method UnpackBits(vBytes: seq<bv8>) returns (vBits: seq<bool>)
    ensures |vBits| == 8 * |vBytes|
    ensures forall p :: 0 <= p < |vBits| ==> vBits[p] == BitAt(vBytes[p / 8], p % 8)
  {
    vBits := [];
    for p := 0 to 8 * |vBytes|
      invariant |vBits| == p
      invariant forall q :: 0 <= q < p ==> vBits[q] == BitAt(vBytes[q / 8], q % 8)
    {
      vBits := vBits + [vBytes[p / 8] & Mask(p % 8) != 0];
    }
  }

  lemma Assoc<A>(x: seq<A>, y: seq<A>, z: seq<A>)
    ensures (x + y) + z == x + (y + z)
  {}

  // ----- The class -----

  class PartialMerkleTree {
    const hash: (Digest, Digest) -> Digest
    /** GetMaxBlockWeight() / MIN_TRANSACTION_WEIGHT */
    const maxTransactions: nat
    var nTransactions: nat
    var vBits: seq<bool>
    var vHash: seq<Digest>
    var fBad: bool

    /** The constructor from all transaction ids and a mask; the ids are not empty, as the
        source asserts. */
    constructor (hash: (Digest, Digest) -> Digest, maxTransactions: nat, vTxid: seq<Digest>, vMatch: seq<bool>)
      requires 0 < |vTxid| == |vMatch|
      ensures this.hash == hash && this.maxTransactions == maxTransactions
      ensures nTransactions == |vTxid| && !fBad
      ensures 0 < CalcTreeWidth(|vTxid|, Height(|vTxid|))
      ensures Encoded(vBits, vHash) == Build(hash, vTxid, vMatch, Height(|vTxid|), 0)
    {
      this.hash := hash;
      this.maxTransactions := maxTransactions;
      nTransactions := |vTxid|;
      vBits := [];
      vHash := [];
      fBad := false;
      new;
      var nHeight := TreeHeight(nTransactions);
      RootWidth(|vTxid|);
      TraverseAndBuild(nHeight, 0, vTxid, vMatch);
    }

    method TraverseAndBuild(height: nat, pos: nat, vTxid: seq<Digest>, vMatch: seq<bool>)
      requires nTransactions == |vTxid| == |vMatch| && pos < CalcTreeWidth(|vTxid|, height)
      modifies `vBits, `vHash
      ensures vBits == old(vBits) + Build(hash, vTxid, vMatch, height, pos).bits
      ensures vHash == old(vHash) + Build(hash, vTxid, vMatch, height, pos).hashes
      decreases height
    {
      hide CalcTreeWidth, CalcHash, Selected;
      var fParentOfMatch := HasMatch(vMatch, pos * Pow2(height), (pos + 1) * Pow2(height));
      vBits := vBits + [fParentOfMatch];
      if height == 0 || !fParentOfMatch {
        vHash := vHash + [CalcHash(hash, vTxid, height, pos)];
      } else {
        Children(nTransactions, height, pos);
        ghost var l := Build(hash, vTxid, vMatch, height - 1, 2 * pos);
        TraverseAndBuild(height - 1, 2 * pos, vTxid, vMatch);
        Assoc(old(vBits), [true], l.bits);
        if 2 * pos + 1 < CalcTreeWidth(nTransactions, height - 1) {
          ghost var r := Build(hash, vTxid, vMatch, height - 1, 2 * pos + 1);
          TraverseAndBuild(height - 1, 2 * pos + 1, vTxid, vMatch);
          Assoc(old(vBits), [true] + l.bits, r.bits);
          Assoc(old(vHash), l.hashes, r.hashes);
        }
      }
    }

    static method HasMatch(vMatch: seq<bool>, lo: nat, hi: nat) returns (found: bool)
      ensures found <==> Selected(vMatch, lo, hi) != []
    {
      found := false;
      var p := lo;
      while p < hi && p < |vMatch|
        invariant lo <= p && (p <= hi || p == lo)
        invariant found <==> Selected(vMatch, lo, p) != []
      {
        found := found || vMatch[p];
        p := p + 1;
      }
      if p < hi {
        SelectedSplit(vMatch, lo, p, hi);
        SelectedBeyond(vMatch, p, hi);
      }
    }

    method TraverseAndExtract(height: nat, pos: nat, nBitsUsed: nat, nHashUsed: nat, vMatch: seq<Digest>,
                              vnIndex: seq<nat>)
      returns (h: Digest, nBitsUsed': nat, nHashUsed': nat, vMatch': seq<Digest>, vnIndex': seq<nat>)
      modifies `fBad
      ensures var r := Extract(hash, nTransactions, vBits, vHash, height, pos, nBitsUsed, nHashUsed);
              && h == r.hash && nBitsUsed' == r.nBitsUsed && nHashUsed' == r.nHashUsed
              && fBad == (old(fBad) || r.bad)
              && vMatch' == vMatch + r.matches && vnIndex' == vnIndex + r.indexes
      decreases height, 1
    {
      hide CalcTreeWidth;
      nBitsUsed', nHashUsed', vMatch', vnIndex' := nBitsUsed, nHashUsed, vMatch, vnIndex;
      if nBitsUsed >= |vBits| {
        fBad := true;
        return 0, nBitsUsed', nHashUsed', vMatch', vnIndex';
      }
      var fParentOfMatch := vBits[nBitsUsed];
      nBitsUsed' := nBitsUsed' + 1;
      if height == 0 || !fParentOfMatch {
        if nHashUsed >= |vHash| {
          fBad := true;
          return 0, nBitsUsed', nHashUsed', vMatch', vnIndex';
        }
        h := vHash[nHashUsed];
        nHashUsed' := nHashUsed' + 1;
        if height == 0 && fParentOfMatch {
          vMatch' := vMatch' + [h];
          vnIndex' := vnIndex' + [pos];
        }
      } else {
        h, nBitsUsed', nHashUsed', vMatch', vnIndex' :=
          ExtractChildren(height, pos, nBitsUsed', nHashUsed', vMatch', vnIndex');
      }
    }

    method ExtractChildren(height: nat, pos: nat, nBitsUsed: nat, nHashUsed: nat, vMatch: seq<Digest>,
                           vnIndex: seq<nat>)
      returns (h: Digest, nBitsUsed': nat, nHashUsed': nat, vMatch': seq<Digest>, vnIndex': seq<nat>)
      requires height > 0 && 0 < nBitsUsed <= |vBits| && vBits[nBitsUsed - 1]
      modifies `fBad
      ensures var r := Extract(hash, nTransactions, vBits, vHash, height, pos, nBitsUsed - 1, nHashUsed);
              && h == r.hash && nBitsUsed' == r.nBitsUsed && nHashUsed' == r.nHashUsed
              && fBad == (old(fBad) || r.bad)
              && vMatch' == vMatch + r.matches && vnIndex' == vnIndex + r.indexes
      decreases height, 0
    {
      hide CalcTreeWidth, Extract;
      ExtractNode(hash, nTransactions, vBits, vHash, height, pos, nBitsUsed - 1, nHashUsed);
      var left, right;
      ghost var l := Extract(hash, nTransactions, vBits, vHash, height - 1, 2 * pos, nBitsUsed, nHashUsed);
      left, nBitsUsed', nHashUsed', vMatch', vnIndex' :=
        TraverseAndExtract(height - 1, 2 * pos, nBitsUsed, nHashUsed, vMatch, vnIndex);
      if 2 * pos + 1 < CalcTreeWidth(nTransactions, height - 1) {
        ghost var r := Extract(hash, nTransactions, vBits, vHash, height - 1, 2 * pos + 1, nBitsUsed', nHashUsed');
        right, nBitsUsed', nHashUsed', vMatch', vnIndex' :=
          TraverseAndExtract(height - 1, 2 * pos + 1, nBitsUsed', nHashUsed', vMatch', vnIndex');
        Assoc(vMatch, l.matches, r.matches);
        Assoc(vnIndex, l.indexes, r.indexes);
        if right == left {
          fBad := true;
        }
      } else {
        right := left;
      }
      h := hash(left, right);
    }

    /** ExtractMatches. vMatch is cleared, vnIndex is only appended to. */
    method ExtractMatches(vnIndex: seq<nat>) returns (root: Digest, vMatch: seq<Digest>, vnIndex': seq<nat>)
      modifies `fBad
      ensures root != 0 ==> Accepted(hash, nTransactions, vBits, vHash, old(fBad), maxTransactions, root)
      ensures root != 0 ==>
                var r := Extract(hash, nTransactions, vBits, vHash, Height(nTransactions), 0, 0, 0);
                vMatch == r.matches && vnIndex' == vnIndex + r.indexes
      ensures forall x :: Accepted(hash, nTransactions, vBits, vHash, old(fBad), maxTransactions, x) ==>
                var r := Extract(hash, nTransactions, vBits, vHash, Height(nTransactions), 0, 0, 0);
                root == x && vMatch == r.matches && vnIndex' == vnIndex + r.indexes
    {
      vMatch, vnIndex' := [], vnIndex;
      if nTransactions == 0 {
        return 0, vMatch, vnIndex';
      }
      if nTransactions > maxTransactions {
        return 0, vMatch, vnIndex';
      }
      if |vHash| > nTransactions {
        return 0, vMatch, vnIndex';
      }
      if |vBits| < |vHash| {
        return 0, vMatch, vnIndex';
      }
      var nHeight := TreeHeight(nTransactions);
      var nBitsUsed, nHashUsed;
      root, nBitsUsed, nHashUsed, vMatch, vnIndex' := TraverseAndExtract(nHeight, 0, 0, 0, vMatch, vnIndex');
      if fBad {
        return 0, vMatch, vnIndex';
      }
      if (nBitsUsed + 7) / 8 != (|vBits| + 7) / 8 {
        return 0, vMatch, vnIndex';
      }
      if nHashUsed != |vHash| {
        return 0, vMatch, vnIndex';
      }
    }
  }

  /** The conditions under which ExtractMatches returns the computed root x. */
  ghost predicate Accepted(hash: (Digest, Digest) -> Digest, n: nat, vBits: seq<bool>, vHash: seq<Digest>,
                           fBad: bool, maxTransactions: nat, x: Digest)
  {
    var r := Extract(hash, n, vBits, vHash, Height(n), 0, 0, 0);
    && 0 < n <= maxTransactions && |vHash| <= n && |vHash| <= |vBits|
    && !fBad && !r.bad
    && (r.nBitsUsed + 7) / 8 == (|vBits| + 7) / 8 && r.nHashUsed == |vHash|
    && x == r.hash
  }

  // ----- The two guarantees -----

  /** Soundness: for any flag bits and hashes whatsoever, if ExtractMatches accepts them with
      the true root of a list of nTransactions ids, every reported pair is true. */
  lemma AcceptedIsSound(hash: (Digest, Digest) -> Digest, vTxid: seq<Digest>, vBits: seq<bool>, vHash: seq<Digest>,
                        fBad: bool, maxTransactions: nat)
    requires Injective(hash) && |vTxid| > 0
    requires Accepted(hash, |vTxid|, vBits, vHash, fBad, maxTransactions, Root(hash, vTxid))
    ensures var r := Extract(hash, |vTxid|, vBits, vHash, Height(|vTxid|), 0, 0, 0);
            TruePairs(vTxid, r.matches, r.indexes)
  {
    hide Root, Extract, CalcHash, CalcTreeWidth, Height, TruePairs, Injective;
    CalcHashIsRoot(hash, vTxid);
    ExtractSound(hash, vTxid, vBits, vHash, Height(|vTxid|), 0, 0, 0);
  }

  /** Padded flag bits of an encoding give exactly the matched ids in order, and are accepted
      exactly if no visited inner node has two equal children. */
  lemma BuiltIsAccepted(hash: (Digest, Digest) -> Digest, vTxid: seq<Digest>, vMatch: seq<bool>, padded: seq<bool>,
                        maxTransactions: nat)
    requires |vMatch| == |vTxid| && 0 < |vTxid| <= maxTransactions
    requires 0 < CalcTreeWidth(|vTxid|, Height(|vTxid|))
    requires Build(hash, vTxid, vMatch, Height(|vTxid|), 0).bits <= padded
    requires |padded| == 8 * ((|Build(hash, vTxid, vMatch, Height(|vTxid|), 0).bits| + 7) / 8)
    ensures var vHash := Build(hash, vTxid, vMatch, Height(|vTxid|), 0).hashes;
            var r := Extract(hash, |vTxid|, padded, vHash, Height(|vTxid|), 0, 0, 0);
            && (Clash(hash, vTxid, vMatch, Height(|vTxid|), 0) ==>
                  forall x :: !Accepted(hash, |vTxid|, padded, vHash, false, maxTransactions, x))
            && (!Clash(hash, vTxid, vMatch, Height(|vTxid|), 0) ==>
                  Accepted(hash, |vTxid|, padded, vHash, false, maxTransactions, Root(hash, vTxid)))
            && r.indexes == Selected(vMatch, 0, |vTxid|)
            && r.matches == Ids(vTxid, r.indexes)
  {
    hide Clash, Extract, Build, CalcHash, CalcTreeWidth, Root, Height;
    CalcHashIsRoot(hash, vTxid);
    var e := Build(hash, vTxid, vMatch, Height(|vTxid|), 0);
    assert padded[0..|e.bits|] == e.bits && e.hashes[0..|e.hashes|] == e.hashes;
    ExtractBuilt(hash, vTxid, vMatch, padded, e.hashes, Height(|vTxid|), 0, 0, 0);
    EncodingSize(hash, vTxid, vMatch);
    RootMatches(vMatch);
  }

  /** The same id twice under one matched node is not accepted. */
  lemma TwinsClash(hash: (Digest, Digest) -> Digest, x: Digest)
    ensures Height(2) == 1 && 0 < CalcTreeWidth(2, 1) && Clash(hash, [x, x], [true, false], 1, 0)
  {
    RootWidth(2);
    WidthZero(2);
    BelowChildren([true, false], 1, 0);
    LeafHash(hash, [x, x], 0);
    LeafHash(hash, [x, x], 1);
  }

  /** Completeness: build, pack to bytes, unpack and extract returns the root of the full
      tree and exactly the matched ids with their positions, unless two equal children were
      visited, where it fails. */
  method SendAndExtract(hash: (Digest, Digest) -> Digest, maxTransactions: nat, vTxid: seq<Digest>, vMatch: seq<bool>)
    returns (root: Digest, vMatched: seq<Digest>, vnIndex: seq<nat>)
    requires |vMatch| == |vTxid| && 0 < |vTxid| <= maxTransactions
    ensures 0 < CalcTreeWidth(|vTxid|, Height(|vTxid|))
    ensures (Injective(hash) && Distinct(vTxid)) || !Mutated(hash, vTxid) ==>
              !Clash(hash, vTxid, vMatch, Height(|vTxid|), 0)
    ensures if Clash(hash, vTxid, vMatch, Height(|vTxid|), 0) then root == 0
            else root == Root(hash, vTxid) && vnIndex == Selected(vMatch, 0, |vTxid|) && vMatched == Ids(vTxid, vnIndex)
  {
    hide Injective, Distinct, Accepted, Build, Extract, CalcTreeWidth, CalcHash, Clash, Root, Height, Mutated;
    var tree := new PartialMerkleTree(hash, maxTransactions, vTxid, vMatch);
    var vBytes := PackBits(tree.vBits);
    var vBits := UnpackBits(vBytes);
    PackedBits(vBytes, tree.vBits, vBits);
    BuiltIsAccepted(hash, vTxid, vMatch, vBits, maxTransactions);
    if Injective(hash) && Distinct(vTxid) {
      DistinctNoClash(hash, vTxid, vMatch, Height(|vTxid|), 0);
    }
    if Clash(hash, vTxid, vMatch, Height(|vTxid|), 0) {
      ClashIsMutation(hash, vTxid, vMatch, Height(|vTxid|), 0);
    }
    tree.vBits := vBits;
    tree.fBad := false;
    root, vMatched, vnIndex := tree.ExtractMatches([]);
    assert !Clash(hash, vTxid, vMatch, Height(|vTxid|), 0) ==>
        Accepted(hash, tree.nTransactions, tree.vBits, tree.vHash, false, maxTransactions, Root(hash, vTxid));
  }

  lemma PackedBits(vBytes: seq<bv8>, vBits: seq<bool>, r: seq<bool>)
    requires |vBytes| == (|vBits| + 7) / 8 && Packs(vBytes, vBits, |vBits|)
    requires |r| == 8 * |vBytes| && forall p :: 0 <= p < |r| ==> r[p] == BitAt(vBytes[p / 8], p % 8)
    ensures vBits <= r && forall p :: |vBits| <= p < |r| ==> !r[p]
  {}
}
