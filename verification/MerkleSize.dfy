// The serialized size of a partial Merkle tree, and the bound that the format claims for it
// (src/chain/merkletree.h, src/commons/serialize.h).

module MerkleSize {
  import opened Bits
  import opened MerkleShape
  import opened PartialMerkle

  // GetSizeOfCompactSize, for the lengths that occur here.
  function CompactSize(n: nat): nat {
    if n < 253 then 1 else if n <= 0xFFFF then 3 else 5
  }

  function FlagBytes(stored: Stored): nat {
    (|stored.bits| + 7) / 8
  }

  // The number of transactions, the hashes and the flag bytes.
  function WireSize(stored: Stored): nat {
    4 + CompactSize(|stored.hashes|) + 32 * |stored.hashes| + CompactSize(FlagBytes(stored)) + FlagBytes(stored)
  }

  // 10 + ceil(32.25 * N)
  function ClaimedSize(stored: Stored): nat {
    10 + 32 * |stored.hashes| + (|stored.hashes| + 3) / 4
  }

  // Below a node whose leaves are all there every node has two children.
  lemma {:induction false} FullHasNoSingles(match_: seq<bool>, height: nat, pos: nat)
    requires First(height, pos) < |match_| && First(height, pos + 1) <= |match_|
    ensures SingleChildren(match_, height, pos) == 0
    decreases height
  {
    if height > 0 && AnyMatch(match_, First(height, pos), First(height, pos + 1)) {
      Children(|match_|, height, pos);
      SingleChildrenInner(match_, height, pos);
      hide First, SingleChildren, AnyMatch, CalcTreeWidth;
      FullHasNoSingles(match_, height - 1, 2 * pos);
      FullHasNoSingles(match_, height - 1, 2 * pos + 1);
    }
  }

  // Only nodes at the right edge have a single child, at most one on each level.
  lemma {:induction false} SingleChildrenBound(match_: seq<bool>, height: nat, pos: nat)
    requires First(height, pos) < |match_|
    ensures SingleChildren(match_, height, pos) <= height
    decreases height
  {
    if height > 0 && AnyMatch(match_, First(height, pos), First(height, pos + 1)) {
      Children(|match_|, height, pos);
      SingleChildrenInner(match_, height, pos);
      hide First, SingleChildren, AnyMatch, CalcTreeWidth;
      if First(height - 1, 2 * pos + 1) < |match_| {
        FullHasNoSingles(match_, height - 1, 2 * pos);
        SingleChildrenBound(match_, height - 1, 2 * pos + 1);
      } else {
        SingleChildrenBound(match_, height - 1, 2 * pos);
      }
    }
  }

  // The bound on the flag bits that does hold.
  lemma FlagBitsBound(combine: Combine, txid: seq<Digest>, match_: seq<bool>, height: nat, pos: nat)
    requires |txid| == |match_| && First(height, pos) < |txid|
    ensures var part := Build(combine, txid, match_, height, pos);
            2 * |part.hashes| - 1 <= |part.bits| <= 2 * |part.hashes| - 1 + height
  {
    BuildSizes(combine, txid, match_, height, pos);
    SingleChildrenBound(match_, height, pos);
  }

  lemma SomePowers()
    ensures Pow2(0) == 1 && Pow2(1) == 2 && Pow2(2) == 4 && Pow2(3) == 8 && Pow2(4) == 16 && Pow2(5) == 32
    ensures Pow2(6) == 64 && Pow2(7) == 128 && Pow2(8) == 256 && Pow2(9) == 512 && Pow2(10) == 1024
    ensures Pow2(17) == 131072
  {
  }

  // Trees within the size limit for blocks have at most 17 levels above the leaves.
  lemma HeightLimit(n: nat, height: nat)
    requires IsTreeHeight(n, height) && n <= MAX_BLOCK_SIZE / 60
    ensures height <= 17
  {
    SomePowers();
    hide Pow2;
    assert CalcTreeWidth(n, 17) <= 1;
  }

  // Whether the size is within the claimed bound, told from the mask: n is the number of nodes at which the
  // traversal stops, and s the number of traversed nodes with a single child.
  predicate ClaimCondition(n: nat, s: nat) {
    n < 253 || 2 * n + s <= 2017 || (n <= 0xFFFF && s <= 1 + 2 * ((4 - n % 4) % 4))
  }

  lemma SizeArith(n: nat, bits: nat)
    requires 0 < n <= MAX_BLOCK_SIZE / 60 && 2 * n - 1 <= bits <= 2 * n + 16
    ensures var b := (bits + 7) / 8;
            4 + CompactSize(n) + 32 * n + CompactSize(b) + b <= 10 + 32 * n + (n + 3) / 4
            <==> ClaimCondition(n, bits - (2 * n - 1))
  {
    var b := (bits + 7) / 8;
    assert b <= (n + 3) / 4 <==> bits - (2 * n - 1) <= 1 + 2 * ((4 - n % 4) % 4);
    assert b < 253 <==> bits <= 2016;
  }

  // The number of nodes at which the traversal stops: they are the ones whose hashes are stored.
  function StoppingNodes(match_: seq<bool>, height: nat, pos: nat): nat
    requires First(height, pos) < |match_|
    decreases height
  {
    if height == 0 || !AnyMatch(match_, First(height, pos), First(height, pos + 1)) then 1
    else
      Children(|match_|, height, pos);
      StoppingNodes(match_, height - 1, 2 * pos)
      + if First(height - 1, 2 * pos + 1) < |match_| then StoppingNodes(match_, height - 1, 2 * pos + 1) else 0
  }

  lemma {:induction false} StoppingNodesAreStored(combine: Combine, txid: seq<Digest>, match_: seq<bool>, height: nat,
                                                  pos: nat)
    requires |txid| == |match_| && First(height, pos) < |txid|
    ensures |Build(combine, txid, match_, height, pos).hashes| == StoppingNodes(match_, height, pos)
    decreases height
  {
    if height > 0 && AnyMatch(match_, First(height, pos), First(height, pos + 1)) {
      BuildInner(combine, txid, match_, height, pos);
      hide Build, AnyMatch, First, CalcHash, CalcTreeWidth;
      StoppingNodesAreStored(combine, txid, match_, height - 1, 2 * pos);
      if First(height - 1, 2 * pos + 1) < |txid| {
        StoppingNodesAreStored(combine, txid, match_, height - 1, 2 * pos + 1);
      }
    }
  }

  lemma ClaimHolds(combine: Combine, txid: seq<Digest>, match_: seq<bool>, height: nat)
    requires 0 < |txid| == |match_| <= MAX_BLOCK_SIZE / 60 && IsTreeHeight(|txid|, height) && First(height, 0) < |txid|
    ensures var stored := Build(combine, txid, match_, height, 0);
            WireSize(stored) <= ClaimedSize(stored) <==>
              ClaimCondition(StoppingNodes(match_, height, 0), SingleChildren(match_, height, 0))
  {
    StoppingNodesAreStored(combine, txid, match_, height, 0);
    HeightLimit(|txid|, height);
    FlagBitsBound(combine, txid, match_, height, 0);
    BuildSizes(combine, txid, match_, height, 0);
    hide Build, First, IsTreeHeight, Pow2, ClaimCondition, StoppingNodes, SingleChildren;
    var stored := Build(combine, txid, match_, height, 0);
    SizeArith(|stored.hashes|, |stored.bits|);
  }

  lemma LeafStored(combine: Combine, txid: seq<Digest>, match_: seq<bool>, pos: nat)
    requires |txid| == |match_| && First(0, pos) < |txid|
    ensures |Build(combine, txid, match_, 0, pos).hashes| == 1 == End(|txid|, 0, pos) - First(0, pos)
  {
  }

  lemma AllMatch(match_: seq<bool>, height: nat, pos: nat)
    requires First(height, pos) < |match_| && forall i | 0 <= i < |match_| :: match_[i]
    ensures AnyMatch(match_, First(height, pos), First(height, pos + 1))
  {
    assert match_[First(height, pos)];
    assert First(height, pos) < First(height, pos + 1) by {
      assert (pos + 1) * Pow2(height) == pos * Pow2(height) + Pow2(height);
    }
  }

  // If all ids are selected, all are stored.
  lemma {:induction false} AllStored(combine: Combine, txid: seq<Digest>, match_: seq<bool>, height: nat, pos: nat)
    requires |txid| == |match_| && First(height, pos) < |txid| && forall i | 0 <= i < |match_| :: match_[i]
    ensures |Build(combine, txid, match_, height, pos).hashes| == End(|txid|, height, pos) - First(height, pos)
    decreases height
  {
    hide First, Build, End, CalcTreeWidth, AnyMatch, Count, Pow2, CalcHash;
    AllMatch(match_, height, pos);
    if height == 0 {
      LeafStored(combine, txid, match_, pos);
    } else {
      BuildInner(combine, txid, match_, height, pos);
      CountInner(match_, height, pos);
      AllStored(combine, txid, match_, height - 1, 2 * pos);
      if First(height - 1, 2 * pos + 1) < |txid| {
        AllStored(combine, txid, match_, height - 1, 2 * pos + 1);
      }
    }
  }

  // One step along the right edge.
  lemma RightEdge(match_: seq<bool>, height: nat, pos: nat)
    requires First(height, pos) < |match_| && height > 0 && forall i | 0 <= i < |match_| :: match_[i]
    ensures First(height - 1, 2 * pos) < |match_|
    ensures SingleChildren(match_, height, pos) ==
              if First(height - 1, 2 * pos + 1) < |match_| then SingleChildren(match_, height - 1, 2 * pos + 1)
              else 1 + SingleChildren(match_, height - 1, 2 * pos)
  {
    AllMatch(match_, height, pos);
    Children(|match_|, height, pos);
    SingleChildrenInner(match_, height, pos);
    if First(height - 1, 2 * pos + 1) < |match_| {
      FullHasNoSingles(match_, height - 1, 2 * pos);
    }
  }

  lemma EdgeOf1012(match_: seq<bool>)
    requires |match_| == 1012 && forall i | 0 <= i < |match_| :: match_[i]
    ensures First(10, 0) == 0 && SingleChildren(match_, 10, 0) == 2
  {
    hide SingleChildren, Pow2, AnyMatch;
    SomePowers();
    assert First(10, 0) == 0 && First(9, 1) == 512 && First(8, 3) == 768 && First(7, 7) == 896 && First(6, 15) == 960;
    assert First(5, 31) == 992 && First(4, 63) == 1008 && First(3, 127) == 1016 && First(3, 126) == 1008;
    assert First(2, 253) == 1012 && First(2, 252) == 1008;
    hide First;
    RightEdge(match_, 10, 0);
    RightEdge(match_, 9, 1);
    RightEdge(match_, 8, 3);
    RightEdge(match_, 7, 7);
    RightEdge(match_, 6, 15);
    RightEdge(match_, 5, 31);
    RightEdge(match_, 4, 63);
    RightEdge(match_, 3, 126);
    FullHasNoSingles(match_, 2, 252);
  }

  lemma HeightOf1012()
    ensures IsTreeHeight(1012, 10)
  {
    hide Pow2;
    SomePowers();
    forall h: nat | h < 10
      ensures CalcTreeWidth(1012, h) > 1
    {
      WidthMeans(1012, h, 1);
      Pow2Monotone(h, 9);
    }
  }

  // The claim fails for 1012 ids that are all selected: 2025 flag bits take 254 bytes.
  lemma ClaimFails(combine: Combine, txid: seq<Digest>, match_: seq<bool>)
    requires |txid| == |match_| == 1012 && forall i | 0 <= i < |match_| :: match_[i]
    ensures IsTreeHeight(1012, 10) && First(10, 0) < 1012
    ensures var stored := Build(combine, txid, match_, 10, 0);
            |stored.hashes| == 1012 && |stored.bits| == 2025 && WireSize(stored) == ClaimedSize(stored) + 1
  {
    hide Build, SingleChildren, Pow2, First, IsTreeHeight;
    HeightOf1012();
    EdgeOf1012(match_);
    AllStored(combine, txid, match_, 10, 0);
    BuildSizes(combine, txid, match_, 10, 0);
    RootCoversAll(1012, 10);
  }
}
