// The partial Merkle tree object and its serialization (src/chain/merkletree.cpp, src/chain/merkletree.h).

module MerkleTree {
  import opened Bits
  import opened Bytes
  import opened MerkleShape
  import opened PartialMerkle

  // The bits lie in the bytes, least significant first, with zero bits behind them.
  ghost predicate Packed(bits: seq<bool>, bytes: seq<Byte>) {
    && |bytes| == (|bits| + 7) / 8
    && forall q: nat | q < 8 * |bytes| :: TestBit(bytes[q / 8], q % 8) <==> q < |bits| && bits[q]
  }

  ghost predicate Unpacked(bytes: seq<Byte>, bits: seq<bool>) {
    && |bits| == 8 * |bytes|
    && forall q: nat | q < |bits| :: bits[q] <==> TestBit(bytes[q / 8], q % 8)
  }

  lemma SetBit(x: Byte, k: nat, j: nat)
    requires k < 8
    ensures BitOr(x, Pow2(k)) < 256
    ensures TestBit(BitOr(x, Pow2(k)), j) <==> TestBit(x, j) || j == k
  {
    TestBitOfOr(x, Pow2(k), j);
    TestBitOfPow2(k, j);
    BitOrBound(x, Pow2(k), 8);
  }

  // The writing half of the serializer.
  method PackBits(bits: seq<bool>) returns (bytes: seq<Byte>)
    ensures Packed(bits, bytes)
  {
    bytes := seq((|bits| + 7) / 8, _ => 0);
    forall q: nat | q < 8 * |bytes|
      ensures !TestBit(bytes[q / 8], q % 8)
    {
      TestBitOfZero(q % 8);
    }
    for p := 0 to |bits|
      invariant |bytes| == (|bits| + 7) / 8
      invariant forall q: nat | q < 8 * |bytes| :: TestBit(bytes[q / 8], q % 8) <==> q < p && bits[q]
    {
      ghost var before := bytes;
      var bit := if bits[p] then Pow2(p % 8) else 0;
      SetBit(bytes[p / 8], p % 8, 0);
      bytes := bytes[p / 8 := BitOr(bytes[p / 8], bit)];
      forall q: nat | q < 8 * |bytes|
        ensures TestBit(bytes[q / 8], q % 8) <==> q < p + 1 && bits[q]
      {
        SetBit(before[p / 8], p % 8, q % 8);
      }
    }
  }

  // The reading half.
  method UnpackBits(bytes: seq<Byte>) returns (bits: seq<bool>)
    ensures Unpacked(bytes, bits)
  {
    bits := seq(8 * |bytes|, _ => false);
    for p := 0 to |bits|
      invariant |bits| == 8 * |bytes|
      invariant forall q: nat | q < p :: bits[q] <==> TestBit(bytes[q / 8], q % 8)
    {
      BitAndTestsBit(bytes[p / 8], p % 8);
      bits := bits[p := BitAnd(bytes[p / 8], Pow2(p % 8)) != 0];
    }
  }

  lemma BitsOfThirteen(q: nat)
    ensures TestBit(13, q) <==> q == 0 || q == 2 || q == 3
    ensures TestBit(1, q) <==> q == 0
  {
    assert TestBit(13, q) == if q == 0 then true else TestBit(6, q - 1);
    assert q > 0 ==> TestBit(6, q - 1) == if q == 1 then false else TestBit(3, q - 2);
    assert q > 1 ==> TestBit(3, q - 2) == if q == 2 then true else TestBit(1, q - 3);
    TestBitOfPow2(0, q);
    if q > 2 {
      TestBitOfPow2(0, q - 3);
    }
  }

  // The first bit is the lowest one of the first byte.
  lemma PackedExamples()
    ensures Packed([true, false, true, true], [13])
    ensures Packed(seq(8, _ => false) + [true], [0, 1])
  {
    hide TestBit;
    forall q: nat
      ensures TestBit(13, q) <==> q == 0 || q == 2 || q == 3
      ensures TestBit(1, q) <==> q == 0
      ensures !TestBit(0, q)
    {
      TestBitOfZero(q);
      BitsOfThirteen(q);
    }
  }

  // Reading what was written gives the bits back, followed by fewer than eight zero bits.
  lemma UnpackPacked(bits: seq<bool>, bytes: seq<Byte>, bits': seq<bool>)
    requires Packed(bits, bytes) && Unpacked(bytes, bits')
    ensures bits <= bits' && |bits'| < |bits| + 8 && (|bits'| + 7) / 8 == (|bits| + 7) / 8
    ensures forall q | |bits| <= q < |bits'| :: !bits'[q]
  {
  }

  // The checks of ExtractMatches before the traversal.
  predicate Plausible(n: nat, stored: Stored) {
    0 < n <= MAX_BLOCK_SIZE / 60 && |stored.hashes| <= n && |stored.hashes| <= |stored.bits|
  }

  // The checks after it.
  predicate Consumed(stored: Stored, c: Cursor) {
    !c.bad && (c.bits + 7) / 8 == (|stored.bits| + 7) / 8 && c.hashes == |stored.hashes|
  }

  function Start(bad: bool): Cursor {
    Cursor(0, 0, [], [], bad, 0)
  }

  // What the encoder stores for the selected ids.
  ghost predicate Encodes(combine: Combine, txid: seq<Digest>, match_: seq<bool>, stored: Stored)
    requires |txid| == |match_|
  {
    forall height: nat | IsTreeHeight(|txid|, height) ::
      First(height, 0) < |txid| && stored == Build(combine, txid, match_, height, 0)
  }

  // What ExtractMatches makes of stored bits and hashes for n ids.
  ghost predicate Extracts(combine: Combine, n: nat, stored: Stored, bad0: bool, root: Digest, found: seq<Digest>,
                           bad: bool)
  {
    if !Plausible(n, stored) then root == 0 && found == [] && bad == bad0
    else
      forall height: nat | IsTreeHeight(n, height) ::
        var (hash, c) := Extract(combine, n, stored, height, 0, Start(bad0));
        found == c.found && bad == c.bad && root == if Consumed(stored, c) then hash else 0
  }

  // Build, pack, unpack, extract: the decoder accepts, returns the block's own Merkle root, and finds
  // exactly the selected ids in order.
  lemma RoundTrip(combine: Combine, txid: seq<Digest>, match_: seq<bool>, height: nat,
                  bytes: seq<Byte>, bits: seq<bool>)
    requires 0 < |txid| == |match_| <= MAX_BLOCK_SIZE / 60 && IsTreeHeight(|txid|, height) && First(height, 0) < |txid|
    requires Packed(Build(combine, txid, match_, height, 0).bits, bytes) && Unpacked(bytes, bits)
    ensures var stored := Stored(bits, Build(combine, txid, match_, height, 0).hashes);
            var (root, c) := Extract(combine, |txid|, stored, height, 0, Start(false));
            && Plausible(|txid|, stored) && Consumed(stored, c)
            && root == CalcHash(combine, txid, height, 0)
            && c.found == Selected(txid, match_, 0, |txid|)
  {
    hide Build, Extract, CalcHash, Selected, Packed, Unpacked, IsTreeHeight, Pow2;
    var built := Build(combine, txid, match_, height, 0);
    var stored := Stored(bits, built.hashes);
    UnpackPacked(built.bits, bytes, bits);
    BuildSizes(combine, txid, match_, height, 0);
    RootCoversAll(|txid|, height);
    assert bits[0..|built.bits|] == built.bits;
    assert built.hashes[0..|built.hashes|] == built.hashes;
    ExtractBuilt(combine, txid, match_, stored, height, 0, Start(false));
  }

  lemma {:induction false} HeightExists(n: nat, h: nat) returns (height: nat)
    requires forall g: nat | g < h :: CalcTreeWidth(n, g) > 1
    ensures IsTreeHeight(n, height)
    decreases n - Pow2(h)
  {
    height := h;
    if CalcTreeWidth(n, h) > 1 {
      WidthMeans(n, h, 1);
      height := HeightExists(n, h + 1);
    }
  }

  // The calls chained: what the encoder stored, packed by one node and unpacked by another, makes
  // ExtractMatches return the block's Merkle root and the selected ids, without failure.
  lemma SelectionArrives(combine: Combine, txid: seq<Digest>, match_: seq<bool>, stored: Stored, bytes: seq<Byte>,
                         bits: seq<bool>, root: Digest, found: seq<Digest>, bad: bool)
    requires 0 < |txid| == |match_| <= MAX_BLOCK_SIZE / 60 && Encodes(combine, txid, match_, stored)
    requires Packed(stored.bits, bytes) && Unpacked(bytes, bits)
    requires Extracts(combine, |txid|, Stored(bits, stored.hashes), false, root, found, bad)
    ensures exists height: nat :: IsRoot(combine, txid, height, root)
    ensures found == Selected(txid, match_, 0, |txid|) && !bad
  {
    hide Build, Extract, CalcHash, Selected, Packed, Unpacked, Pow2;
    var height := HeightExists(|txid|, 0);
    RoundTrip(combine, txid, match_, height, bytes, bits);
    assert IsRoot(combine, txid, height, root);
  }

  // Whatever is supplied: if the decoder accepts and gets the true root, then either every id it found is
  // the real one at its leaf position, positions rising, or it exhibits a collision of the hash.
  lemma Soundness(combine: Combine, txid: seq<Digest>, height: nat, stored: Stored) returns (x: Collision)
    requires txid != [] && IsTreeHeight(|txid|, height) && First(height, 0) < |txid|
    requires var (root, c) := Extract(combine, |txid|, stored, height, 0, Start(false));
             Consumed(stored, c) && root == CalcHash(combine, txid, height, 0)
    ensures x == NoCollision ==>
              FoundReal(txid, Start(false), Extract(combine, |txid|, stored, height, 0, Start(false)).1, 0, |txid|)
    ensures x != NoCollision ==> IsCollision(combine, x)
  {
    RootCoversAll(|txid|, height);
    x := ExtractSound(combine, txid, stored, height, 0, Start(false));
  }

  // With a hash that never collides the ids are real.
  lemma SoundnessWithoutCollisions(combine: Combine, txid: seq<Digest>, height: nat, stored: Stored)
    requires forall a, b, c, d :: combine(a, b) == combine(c, d) ==> a == c && b == d
    requires txid != [] && IsTreeHeight(|txid|, height) && First(height, 0) < |txid|
    requires var (root, c) := Extract(combine, |txid|, stored, height, 0, Start(false));
             Consumed(stored, c) && root == CalcHash(combine, txid, height, 0)
    ensures FoundReal(txid, Start(false), Extract(combine, |txid|, stored, height, 0, Start(false)).1, 0, |txid|)
  {
    var x := Soundness(combine, txid, height, stored);
  }

  // The ids are those of the block at the given positions, which rise.
  ghost predicate AreIdsAt(txid: seq<Digest>, found: seq<Digest>, positions: seq<nat>) {
    && |found| == |positions|
    && (forall k | 0 <= k < |found| :: positions[k] < |txid| && found[k] == txid[positions[k]])
    && (forall j, k | 0 <= j < k < |found| :: positions[j] < positions[k])
  }

  // Whatever was deserialized: if ExtractMatches returns the block's Merkle root, and that is not the 0 that
  // stands for failure, the ids it gives are those of the block at rising positions, or there is a collision.
  lemma MatchesAreReal(combine: Combine, txid: seq<Digest>, height: nat, stored: Stored, bad0: bool, root: Digest,
                       found: seq<Digest>, bad: bool)
    returns (positions: seq<nat>, x: Collision)
    requires Extracts(combine, |txid|, stored, bad0, root, found, bad)
    requires IsRoot(combine, txid, height, root) && root != 0
    ensures if x == NoCollision then AreIdsAt(txid, found, positions) else IsCollision(combine, x)
  {
    hide Extract, CalcHash, IsTreeHeight, First;
    ExtractBounds(combine, |txid|, stored, height, 0, Start(bad0));
    x := Soundness(combine, txid, height, stored);
    positions := Extract(combine, |txid|, stored, height, 0, Start(false)).1.positions;
  }

  // Exactly when ExtractMatches returns the hash of the traversal, and 0 otherwise: a number of ids that fits a
  // block, no more hashes than ids or bits, no failure before or on the way, all hashes used, and all bits but
  // padding.
  lemma ResultIs(combine: Combine, n: nat, height: nat, stored: Stored, bad0: bool, root: Digest, found: seq<Digest>,
                 bad: bool)
    requires Extracts(combine, n, stored, bad0, root, found, bad) && IsTreeHeight(n, height)
    ensures var (hash, c) := Extract(combine, n, stored, height, 0, Start(bad0));
            var fits := 0 < n <= 66666 && |stored.hashes| <= n && |stored.hashes| <= |stored.bits|;
            var used := c.hashes == |stored.hashes| && c.bits <= |stored.bits| <= (c.bits + 7) / 8 * 8;
            && root == (if fits && !c.bad && used then hash else 0)
            && found == (if fits then c.found else [])
            && (bad <==> if fits then c.bad else bad0) && (bad0 ==> root == 0)
  {
    hide Extract;
    ExtractBounds(combine, n, stored, height, 0, Start(bad0));
  }

  // What is accepted cannot be extended: with more hashes or with another byte of bits it is refused. So nothing
  // that is accepted can be shortened either.
  lemma NothingCanBeAdded(combine: Combine, n: nat, height: nat, stored: Stored, longer: Stored, root: Digest,
                          found: seq<Digest>, bad: bool, root': Digest, found': seq<Digest>, bad': bool)
    requires Extracts(combine, n, stored, false, root, found, bad) && root != 0 && IsTreeHeight(n, height)
    requires Extracts(combine, n, longer, false, root', found', bad')
    requires stored.bits <= longer.bits && stored.hashes <= longer.hashes
    ensures root' == if longer.hashes == stored.hashes && |longer.bits| <= (|stored.bits| + 7) / 8 * 8 then root else 0
  {
    hide Extract;
    ResultIs(combine, n, height, stored, false, root, found, bad);
    ResultIs(combine, n, height, longer, false, root', found', bad');
    ExtractExtended(combine, n, stored, longer, height, 0, Start(false));
    ExtractBounds(combine, n, stored, height, 0, Start(false));
  }

  // On any input the decoder makes at most twice as many calls as there are bits, plus one.
  lemma CallsBounded(combine: Combine, n: nat, stored: Stored, height: nat)
    ensures Extract(combine, n, stored, height, 0, Start(false)).1.calls <= 2 * |stored.bits| + 1
  {
    ExtractBounds(combine, n, stored, height, 0, Start(false));
  }

  lemma TreeHeightUnique(n: nat, h: nat, k: nat)
    requires IsTreeHeight(n, h) && IsTreeHeight(n, k)
    ensures h == k
  {
  }

  lemma AppendInOrder<T>(a: seq<T>, b: seq<T>, c: seq<T>, d: seq<T>)
    ensures a + b + c + d == a + (b + c + d)
    ensures d == [] ==> a + b + c == a + (b + c)
  {
  }

  class PartialMerkleTree {
    var nTransactions: nat
    var vBits: seq<bool>
    var vHash: seq<Digest>
    var fBad: bool

    function State(): Stored
      reads this
    {
      Stored(vBits, vHash)
    }

    constructor Empty()
      ensures nTransactions == 0 && vBits == [] && vHash == [] && fBad
    {
      nTransactions, vBits, vHash, fBad := 0, [], [], true;
    }

    // The first loop of TraverseAndBuild.
    method ParentOfMatch(height: nat, pos: nat, match_: seq<bool>) returns (parentOfMatch: bool)
      requires nTransactions == |match_| && First(height, pos) < |match_|
      ensures parentOfMatch <==> AnyMatch(match_, First(height, pos), First(height, pos + 1))
    {
      parentOfMatch := false;
      var p := First(height, pos);
      while p < First(height, pos + 1) && p < nTransactions
        invariant First(height, pos) <= p
        invariant parentOfMatch <==> AnyMatch(match_, First(height, pos), p)
        invariant p <= First(height, pos + 1) || p == First(height, pos)
        decreases nTransactions - p
      {
        parentOfMatch := parentOfMatch || match_[p];
        p := p + 1;
      }
    }

    method TraverseAndBuild(combine: Combine, height: nat, pos: nat, txid: seq<Digest>, match_: seq<bool>)
      requires nTransactions == |txid| == |match_| && First(height, pos) < |txid|
      modifies this`vBits, this`vHash
      ensures vBits == old(vBits) + Build(combine, txid, match_, height, pos).bits
      ensures vHash == old(vHash) + Build(combine, txid, match_, height, pos).hashes
      decreases height
    {
      hide First, CalcTreeWidth, AnyMatch, CalcHash;
      ghost var bits0, hashes0 := vBits, vHash;
      var parentOfMatch := ParentOfMatch(height, pos, match_);
      vBits := vBits + [parentOfMatch];
      if height == 0 || !parentOfMatch {
        vHash := vHash + [CalcHash(combine, txid, height, pos)];
      } else {
        BuildInner(combine, txid, match_, height, pos);
        WidthMeans(nTransactions, height - 1, 2 * pos + 1);
        hide Build;
        ghost var left := Build(combine, txid, match_, height - 1, 2 * pos);
        TraverseAndBuild(combine, height - 1, pos * 2, txid, match_);
        if pos * 2 + 1 < CalcTreeWidth(nTransactions, height - 1) {
          ghost var right := Build(combine, txid, match_, height - 1, 2 * pos + 1);
          TraverseAndBuild(combine, height - 1, pos * 2 + 1, txid, match_);
          AppendInOrder(bits0, [true], left.bits, right.bits);
          AppendInOrder(hashes0, left.hashes, right.hashes, []);
        } else {
          AppendInOrder(bits0, [true], left.bits, []);
        }
      }
    }

    // The encoder. An empty list of ids makes the source read past its end.
    constructor (combine: Combine, txid: seq<Digest>, match_: seq<bool>)
      requires 0 < |txid| == |match_|
      ensures nTransactions == |txid| && !fBad && Encodes(combine, txid, match_, State())
    {
      nTransactions, vBits, vHash, fBad := |txid|, [], [], false;
      new;
      var height := TreeHeight(nTransactions);
      assert First(height, 0) == 0;
      TraverseAndBuild(combine, height, 0, txid, match_);
      forall h: nat | IsTreeHeight(|txid|, h)
        ensures h == height
      {
        TreeHeightUnique(|txid|, h, height);
      }
    }

    // The decoder's recursion; the ghost cursor mirrors its variables.
    method TraverseAndExtract(combine: Combine, height: nat, pos: nat, bitsUsed: nat, hashUsed: nat,
                              found: seq<Digest>, ghost c: Cursor)
      returns (hash: Digest, bitsUsed': nat, hashUsed': nat, found': seq<Digest>, ghost c': Cursor)
      requires c.bits == bitsUsed && c.hashes == hashUsed && c.found == found && c.bad == fBad
      modifies this`fBad
      ensures (hash, c') == Extract(combine, nTransactions, State(), height, pos, c)
      ensures c'.bits == bitsUsed' && c'.hashes == hashUsed' && c'.found == found' && c'.bad == fBad
      decreases height
    {
      bitsUsed', hashUsed', found' := bitsUsed, hashUsed, found;
      c' := c.(calls := c.calls + 1);
      if bitsUsed' >= |vBits| {
        fBad := true;
        return 0, bitsUsed', hashUsed', found', c'.(bad := true);
      }
      var parentOfMatch := vBits[bitsUsed'];
      bitsUsed' := bitsUsed' + 1;
      c' := c'.(bits := bitsUsed');
      if height == 0 || !parentOfMatch {
        if hashUsed' >= |vHash| {
          fBad := true;
          return 0, bitsUsed', hashUsed', found', c'.(bad := true);
        }
        hash := vHash[hashUsed'];
        hashUsed' := hashUsed' + 1;
        c' := c'.(hashes := hashUsed');
        if height == 0 && parentOfMatch {
          found' := found' + [hash];
          c' := c'.(found := found', positions := c'.positions + [pos]);
        }
      } else {
        var left, right;
        left, bitsUsed', hashUsed', found', c' :=
          TraverseAndExtract(combine, height - 1, pos * 2, bitsUsed', hashUsed', found', c');
        if pos * 2 + 1 < CalcTreeWidth(nTransactions, height - 1) {
          right, bitsUsed', hashUsed', found', c' :=
            TraverseAndExtract(combine, height - 1, pos * 2 + 1, bitsUsed', hashUsed', found', c');
        } else {
          right := left;
        }
        hash := combine(left, right);
      }
    }

    // The result 0 stands for failure; the ids found so far are then left in place.
    method ExtractMatches(combine: Combine) returns (root: Digest, found: seq<Digest>)
      modifies this`fBad
      ensures Extracts(combine, nTransactions, State(), old(fBad), root, found, fBad)
    {
      found := [];
      if nTransactions == 0 {
        return 0, found;
      }
      if nTransactions > MAX_BLOCK_SIZE / 60 {
        return 0, found;
      }
      if |vHash| > nTransactions {
        return 0, found;
      }
      if |vBits| < |vHash| {
        return 0, found;
      }
      var height := TreeHeight(nTransactions);
      var bitsUsed, hashUsed;
      ghost var c;
      root, bitsUsed, hashUsed, found, c := TraverseAndExtract(combine, height, 0, 0, 0, found, Start(fBad));
      forall h: nat | IsTreeHeight(nTransactions, h)
        ensures h == height
      {
        TreeHeightUnique(nTransactions, h, height);
      }
      if fBad {
        return 0, found;
      }
      if (bitsUsed + 7) / 8 != (|vBits| + 7) / 8 {
        return 0, found;
      }
      if hashUsed != |vHash| {
        return 0, found;
      }
    }

    // The serializer, written and read.
    method Serialize() returns (n: nat, hashes: seq<Digest>, bytes: seq<Byte>)
      ensures n == nTransactions && hashes == vHash && Packed(vBits, bytes)
    {
      bytes := PackBits(vBits);
      return nTransactions, vHash, bytes;
    }

    method Deserialize(n: nat, hashes: seq<Digest>, bytes: seq<Byte>)
      modifies this
      ensures nTransactions == n && vHash == hashes && Unpacked(bytes, vBits) && !fBad
    {
      nTransactions, vHash := n, hashes;
      vBits := UnpackBits(bytes);
      fBad := false;
    }
  }
}
