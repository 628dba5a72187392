// The shape of the Merkle tree over a list of transaction ids, and the hashes of its nodes
// (src/chain/merkletree.h, CalcTreeWidth; src/chain/merkletree.cpp, CalcHash).

module MerkleShape {
  import opened Bits

  type Digest = nat

  const MAX_BLOCK_SIZE: nat := 4000000

  // The hash of two concatenated digests.
  type Combine = (Digest, Digest) -> Digest

  function CalcTreeWidth(n: nat, height: nat): nat {
    (n + Pow2(height) - 1) / Pow2(height)
  }

  // The first leaf below the node at pos.
  function First(height: nat, pos: nat): nat {
    pos * Pow2(height)
  }

  // One past the last leaf below it.
  function End(n: nat, height: nat, pos: nat): nat {
    if First(height, pos + 1) < n then First(height, pos + 1) else n
  }

  lemma CeilingMeans(n: nat, p: nat, pos: nat)
    requires p > 0
    ensures pos < (n + p - 1) / p <==> pos * p < n
  {
    var w := (n + p - 1) / p;
    assert w * p <= n + p - 1 < w * p + p;
    if pos < w {
      assert (pos + 1) * p <= w * p;
      assert (pos + 1) * p == pos * p + p;
    } else {
      assert w * p <= pos * p;
    }
  }

  // A node is in the tree exactly if it has a leaf.
  lemma WidthMeans(n: nat, height: nat, pos: nat)
    ensures pos < CalcTreeWidth(n, height) <==> First(height, pos) < n
  {
    hide Pow2;
    CeilingMeans(n, Pow2(height), pos);
  }

  lemma Children(n: nat, height: nat, pos: nat)
    requires height > 0
    ensures First(height - 1, 2 * pos) == First(height, pos)
    ensures First(height - 1, 2 * pos + 2) == First(height, pos + 1)
    ensures First(height - 1, 2 * pos) < First(height - 1, 2 * pos + 1) < First(height - 1, 2 * pos + 2)
    ensures 2 * pos + 1 < CalcTreeWidth(n, height - 1) <==> First(height - 1, 2 * pos + 1) < n
  {
    WidthMeans(n, height - 1, 2 * pos + 1);
    var p := Pow2(height - 1);
    assert Pow2(height) == 2 * p;
    assert (2 * pos) * p == pos * (2 * p) && (2 * pos + 2) * p == (pos + 1) * (2 * p);
    assert (2 * pos + 1) * p == (2 * pos) * p + p && (2 * pos + 2) * p == (2 * pos + 1) * p + p;
  }

  lemma LeafNode(n: nat, pos: nat)
    ensures First(0, pos) == pos
    ensures pos < n ==> End(n, 0, pos) == pos + 1
  {
  }

  // CPartialMerkleTree::CalcHash
  function CalcHash(combine: Combine, txid: seq<Digest>, height: nat, pos: nat): Digest
    requires First(height, pos) < |txid|
    decreases height
  {
    if height == 0 then
      LeafNode(|txid|, pos);
      txid[pos]
    else
      Children(|txid|, height, pos);
      var left := CalcHash(combine, txid, height - 1, 2 * pos);
      var right := if 2 * pos + 1 < CalcTreeWidth(|txid|, height - 1)
                   then CalcHash(combine, txid, height - 1, 2 * pos + 1) else left;
      combine(left, right)
  }

  // The height that the loops in the constructor and in ExtractMatches find.
  ghost predicate IsTreeHeight(n: nat, height: nat) {
    CalcTreeWidth(n, height) <= 1 && forall h: nat | h < height :: CalcTreeWidth(n, h) > 1
  }

  method TreeHeight(n: nat) returns (height: nat)
    ensures IsTreeHeight(n, height)
  {
    height := 0;
    while CalcTreeWidth(n, height) > 1
      invariant forall h: nat | h < height :: CalcTreeWidth(n, h) > 1
      decreases n - Pow2(height)
    {
      WidthMeans(n, height, 1);
      height := height + 1;
    }
  }

  lemma RootCoversAll(n: nat, height: nat)
    requires n > 0 && IsTreeHeight(n, height)
    ensures First(height, 0) == 0 && End(n, height, 0) == n
  {
  }

  ghost predicate IsRoot(combine: Combine, txid: seq<Digest>, height: nat, root: Digest) {
    && IsTreeHeight(|txid|, height) && First(height, 0) < |txid|
    && root == CalcHash(combine, txid, height, 0)
  }

  // One level of CBlock::BuildMerkleTree: pairs are combined, a last odd one with itself.
  function NextLevel(combine: Combine, level: seq<Digest>): (next: seq<Digest>)
    ensures |next| == (|level| + 1) / 2
  {
    seq((|level| + 1) / 2, i requires 0 <= i < (|level| + 1) / 2 =>
      combine(level[2 * i], if 2 * i + 1 < |level| then level[2 * i + 1] else level[2 * i]))
  }

  function Level(combine: Combine, txid: seq<Digest>, height: nat): seq<Digest> {
    if height == 0 then txid else NextLevel(combine, Level(combine, txid, height - 1))
  }

  lemma HalfWidth(n: nat, height: nat)
    requires height > 0
    ensures CalcTreeWidth(n, height) == (CalcTreeWidth(n, height - 1) + 1) / 2
  {
    var w, v := CalcTreeWidth(n, height), CalcTreeWidth(n, height - 1);
    WidthMeans(n, height, w);
    Children(n, height, w);
    WidthMeans(n, height - 1, 2 * w);
    if w > 0 {
      WidthMeans(n, height, w - 1);
      Children(n, height, w - 1);
      WidthMeans(n, height - 1, 2 * (w - 1));
    }
  }

  // The recursion of CalcHash and the levels of the block's own tree agree on every node.
  lemma {:induction false} LevelHolds(combine: Combine, txid: seq<Digest>, height: nat)
    ensures |Level(combine, txid, height)| == CalcTreeWidth(|txid|, height)
    ensures forall pos: nat | pos < CalcTreeWidth(|txid|, height) ::
              First(height, pos) < |txid| && Level(combine, txid, height)[pos] == CalcHash(combine, txid, height, pos)
  {
    var n := |txid|;
    forall pos: nat | pos < CalcTreeWidth(n, height)
      ensures First(height, pos) < n
    {
      WidthMeans(n, height, pos);
    }
    if height == 0 {
      assert CalcTreeWidth(n, 0) == n;
    } else {
      LevelHolds(combine, txid, height - 1);
      HalfWidth(n, height);
      hide Pow2, First, CalcTreeWidth;
      forall pos: nat | pos < CalcTreeWidth(n, height)
        ensures Level(combine, txid, height)[pos] == CalcHash(combine, txid, height, pos)
      {
        Children(n, height, pos);
      }
    }
  }

  // The root of one id is that id; of three ids the last is combined with itself.
  lemma RootExamples(combine: Combine, a: Digest, b: Digest, c: Digest)
    ensures IsRoot(combine, [a], 0, a)
    ensures IsRoot(combine, [a, b, c], 2, combine(combine(a, b), combine(c, c)))
  {
    assert Pow2(0) == 1 && Pow2(1) == 2 && Pow2(2) == 4;
    var txid := [a, b, c];
    assert CalcTreeWidth(1, 0) == 1;
    assert CalcTreeWidth(3, 0) == 3 && CalcTreeWidth(3, 1) == 2 && CalcTreeWidth(3, 2) == 1;
    assert CalcHash(combine, txid, 1, 0) == combine(a, b);
    assert CalcHash(combine, txid, 1, 1) == combine(c, c);
  }

  // The inner loop of CBlock::BuildMerkleTree: the level that starts at j gets its parents appended.
  method AppendParents(combine: Combine, tree: seq<Digest>, j: nat) returns (grown: seq<Digest>)
    requires j < |tree|
    ensures grown == tree + NextLevel(combine, tree[j..])
  {
    var size := |tree| - j;
    ghost var next := NextLevel(combine, tree[j..]);
    grown := tree;
    var i := 0;
    while i < size
      invariant i % 2 == 0 && 0 <= i <= size + 1
      invariant grown == tree + next[..i / 2]
    {
      var i2 := if i + 1 < size - 1 then i + 1 else size - 1;
      assert tree[j..][i] == grown[j + i] && tree[j..][i2] == grown[j + i2];
      assert next[i / 2] == combine(grown[j + i], grown[j + i2]);
      assert next[..i / 2 + 1] == next[..i / 2] + [next[i / 2]];
      grown := grown + [combine(grown[j + i], grown[j + i2])];
      i := i + 2;
    }
    assert next[..i / 2] == next;
  }

  // Every level below height has more than one node.
  ghost predicate Tall(n: nat, height: nat) {
    forall h: nat | h < height :: CalcTreeWidth(n, h) > 1
  }

  lemma NoTallerLevels(combine: Combine, txid: seq<Digest>)
    ensures Level(combine, txid, 0) == txid && Tall(|txid|, 0)
  {
  }

  lemma TallerLevel(combine: Combine, txid: seq<Digest>, height: nat)
    requires Tall(|txid|, height) && |Level(combine, txid, height)| > 1
    ensures Level(combine, txid, height + 1) == NextLevel(combine, Level(combine, txid, height))
    ensures Tall(|txid|, height + 1)
  {
    LevelHolds(combine, txid, height);
  }

  lemma LastLevel(combine: Combine, txid: seq<Digest>, height: nat)
    requires Tall(|txid|, height) && |Level(combine, txid, height)| == 1
    ensures IsRoot(combine, txid, height, Level(combine, txid, height)[0])
  {
    LevelHolds(combine, txid, height);
  }

  // CBlock::BuildMerkleTree: one array that takes level after level.
  method BuildMerkleTree(combine: Combine, txid: seq<Digest>) returns (root: Digest)
    ensures if txid == [] then root == 0 else exists height: nat :: IsRoot(combine, txid, height, root)
  {
    if txid == [] {
      return 0;
    }
    ghost var height := 0;
    hide *;
    var tree := txid;
    var j, size := 0, |txid|;
    NoTallerLevels(combine, txid);
    while size > 1
      invariant 0 < size && j + size == |tree|
      invariant tree[j..] == Level(combine, txid, height) && Tall(|txid|, height)
      decreases size
    {
      TallerLevel(combine, txid, height);
      ghost var level := tree[j..];
      tree := AppendParents(combine, tree, j);
      j, size, height := j + size, (size + 1) / 2, height + 1;
      assert tree[j..] == NextLevel(combine, level);
    }
    LastLevel(combine, txid, height);
    assert tree[|tree| - 1] == tree[j..][0];
    root := tree[|tree| - 1];
  }
}
