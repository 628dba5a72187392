// Partial Merkle trees (src/chain/merkletree.cpp): what the encoder stores for a selection of
// transactions, and what the decoder makes of stored bits and hashes.

module PartialMerkle {
  import opened Bits
  import opened MerkleShape

  // The flag bits and hashes that a traversal stores.
  datatype Stored = Stored(bits: seq<bool>, hashes: seq<Digest>)

  predicate AnyMatch(match_: seq<bool>, lo: nat, hi: nat) {
    exists p | lo <= p < hi && p < |match_| :: match_[p]
  }

  // The selected ids among the leaves from lo up to hi.
  function Selected(txid: seq<Digest>, match_: seq<bool>, lo: nat, hi: nat): seq<Digest>
    requires |txid| == |match_| && hi <= |txid|
    decreases hi - lo
  {
    if hi <= lo then []
    else (if match_[lo] then [txid[lo]] else []) + Selected(txid, match_, lo + 1, hi)
  }

  lemma {:induction false} SelectedSplits(txid: seq<Digest>, match_: seq<bool>, lo: nat, mid: nat, hi: nat)
    requires |txid| == |match_| && lo <= mid <= hi <= |txid|
    ensures Selected(txid, match_, lo, hi) == Selected(txid, match_, lo, mid) + Selected(txid, match_, mid, hi)
    decreases mid - lo
  {
    if lo < mid {
      SelectedSplits(txid, match_, lo + 1, mid, hi);
    }
  }

  lemma {:induction false} NothingSelected(txid: seq<Digest>, match_: seq<bool>, lo: nat, hi: nat)
    requires |txid| == |match_| && hi <= |txid| && !AnyMatch(match_, lo, hi)
    ensures Selected(txid, match_, lo, hi) == []
    decreases hi - lo
  {
    if lo < hi {
      assert !match_[lo];
      NothingSelected(txid, match_, lo + 1, hi);
    }
  }

  // What TraverseAndBuild stores for the node at pos.
  function Build(combine: Combine, txid: seq<Digest>, match_: seq<bool>, height: nat, pos: nat): Stored
    requires |txid| == |match_| && First(height, pos) < |txid|
    decreases height
  {
    var parentOfMatch := AnyMatch(match_, First(height, pos), First(height, pos + 1));
    if height == 0 || !parentOfMatch then Stored([parentOfMatch], [CalcHash(combine, txid, height, pos)])
    else
      Children(|txid|, height, pos);
      var left := Build(combine, txid, match_, height - 1, 2 * pos);
      if 2 * pos + 1 < CalcTreeWidth(|txid|, height - 1) then
        var right := Build(combine, txid, match_, height - 1, 2 * pos + 1);
        Stored([true] + left.bits + right.bits, left.hashes + right.hashes)
      else Stored([true] + left.bits, left.hashes)
  }

  // The decoder's state: the two cursors, the ids found and their leaf positions, the failure flag, and
  // the number of calls made.
  datatype Cursor = Cursor(bits: nat, hashes: nat, found: seq<Digest>, positions: seq<nat>, bad: bool, calls: nat)

  // What TraverseAndExtract computes for the node at pos of a tree over n leaves.
  function Extract(combine: Combine, n: nat, stored: Stored, height: nat, pos: nat, c: Cursor): (r: (Digest, Cursor))
    decreases height
  {
    var c := c.(calls := c.calls + 1);
    if c.bits >= |stored.bits| then (0, c.(bad := true))
    else
      var parentOfMatch := stored.bits[c.bits];
      var c := c.(bits := c.bits + 1);
      if height == 0 || !parentOfMatch then
        if c.hashes >= |stored.hashes| then (0, c.(bad := true))
        else
          var hash := stored.hashes[c.hashes];
          var c := c.(hashes := c.hashes + 1);
          (hash, if height == 0 && parentOfMatch
                 then c.(found := c.found + [hash], positions := c.positions + [pos]) else c)
      else
        var (left, c) := Extract(combine, n, stored, height - 1, 2 * pos, c);
        var (right, c) := if 2 * pos + 1 < CalcTreeWidth(n, height - 1)
                          then Extract(combine, n, stored, height - 1, 2 * pos + 1, c) else (left, c);
        (combine(left, right), c)
  }

  // The stored traversal stands at the cursor.
  predicate StandsAt(stored: Stored, part: Stored, c: Cursor) {
    && c.bits + |part.bits| <= |stored.bits| && c.hashes + |part.hashes| <= |stored.hashes|
    && stored.bits[c.bits..c.bits + |part.bits|] == part.bits
    && stored.hashes[c.hashes..c.hashes + |part.hashes|] == part.hashes
  }

  lemma StandsInside(stored: Stored, part: Stored, c: Cursor, piece: Stored, bits: nat, hashes: nat, c': Cursor)
    requires StandsAt(stored, part, c) && c'.bits == c.bits + bits && c'.hashes == c.hashes + hashes
    requires bits + |piece.bits| <= |part.bits| && part.bits[bits..bits + |piece.bits|] == piece.bits
    requires hashes + |piece.hashes| <= |part.hashes| && part.hashes[hashes..hashes + |piece.hashes|] == piece.hashes
    ensures StandsAt(stored, piece, c')
  {
  }

  // The traversal of an inner node starts with its bit, and goes on with those of its children.
  lemma ChildrenStand(stored: Stored, part: Stored, left: Stored, right: Stored, c: Cursor, c1: Cursor)
    requires part.bits == [true] + left.bits + right.bits && part.hashes == left.hashes + right.hashes
    requires StandsAt(stored, part, c)
    requires c1.bits == c.bits + 1 && c1.hashes == c.hashes
    ensures c.bits < |stored.bits| && stored.bits[c.bits] && StandsAt(stored, left, c1)
    ensures forall c2: Cursor | c2.bits == c1.bits + |left.bits| && c2.hashes == c1.hashes + |left.hashes| ::
              StandsAt(stored, right, c2)
  {
    assert stored.bits[c.bits..c.bits + |part.bits|][0] == part.bits[0];
    StandsInside(stored, part, c, left, 1, 0, c1);
    forall c2: Cursor | c2.bits == c1.bits + |left.bits| && c2.hashes == c1.hashes + |left.hashes|
      ensures StandsAt(stored, right, c2)
    {
      StandsInside(stored, part, c, right, 1 + |left.bits|, |left.hashes|, c2);
    }
  }

  // The decoder gets from c what the encoder stored for the node at pos: the node's hash and selected
  // ids, with the cursors moved right behind.
  ghost predicate Decodes(combine: Combine, txid: seq<Digest>, match_: seq<bool>, stored: Stored,
                          height: nat, pos: nat, c: Cursor)
    requires |txid| == |match_| && First(height, pos) < |txid|
  {
    var part := Build(combine, txid, match_, height, pos);
    var (hash, c') := Extract(combine, |txid|, stored, height, pos, c);
    && hash == CalcHash(combine, txid, height, pos) && !c'.bad
    && c'.bits == c.bits + |part.bits| && c'.hashes == c.hashes + |part.hashes|
    && End(|txid|, height, pos) <= |txid|
    && c'.found == c.found + Selected(txid, match_, First(height, pos), End(|txid|, height, pos))
  }

  lemma EndIsBound(n: nat, height: nat, pos: nat)
    requires First(height, pos) < n
    ensures First(height, pos) < End(n, height, pos) <= n
    ensures End(n, height, pos) <= First(height, pos + 1)
    ensures n <= First(height, pos + 1) ==> End(n, height, pos) == n
  {
  }

  // A node without its subtrees.
  lemma DecodesStop(combine: Combine, txid: seq<Digest>, match_: seq<bool>, stored: Stored,
                    height: nat, pos: nat, c: Cursor)
    requires |txid| == |match_| && First(height, pos) < |txid|
    requires !c.bad && StandsAt(stored, Build(combine, txid, match_, height, pos), c)
    requires height == 0 || !AnyMatch(match_, First(height, pos), First(height, pos + 1))
    ensures Decodes(combine, txid, match_, stored, height, pos, c)
  {
    hide First;
    var n := |txid|;
    var part := Build(combine, txid, match_, height, pos);
    assert stored.bits[c.bits..c.bits + |part.bits|][0] == part.bits[0];
    assert stored.hashes[c.hashes..c.hashes + |part.hashes|][0] == part.hashes[0];
    EndIsBound(n, height, pos);
    LeafNode(n, pos);
    LeafNode(n, pos + 1);
    if !AnyMatch(match_, First(height, pos), First(height, pos + 1)) {
      NothingSelected(txid, match_, First(height, pos), End(n, height, pos));
    } else {
      assert Selected(txid, match_, pos, pos + 1) == [txid[pos]] + Selected(txid, match_, pos + 1, pos + 1);
    }
  }

  // What the decoder does at an inner node that it descends into.
  lemma ExtractInner(combine: Combine, n: nat, stored: Stored, height: nat, pos: nat, c: Cursor)
    requires height > 0 && c.bits < |stored.bits| && stored.bits[c.bits]
    ensures var (left, c1) := Extract(combine, n, stored, height - 1, 2 * pos,
                                      c.(bits := c.bits + 1, calls := c.calls + 1));
            var (right, c2) := if 2 * pos + 1 < CalcTreeWidth(n, height - 1)
                               then Extract(combine, n, stored, height - 1, 2 * pos + 1, c1) else (left, c1);
            Extract(combine, n, stored, height, pos, c) == (combine(left, right), c2)
  {
  }

  lemma ExtractStopExtended(combine: Combine, n: nat, stored: Stored, longer: Stored, height: nat, pos: nat, c: Cursor)
    requires stored.bits <= longer.bits && stored.hashes <= longer.hashes && c.bits <= |stored.bits|
    requires !Extract(combine, n, stored, height, pos, c).1.bad
    ensures c.bits < |stored.bits| && longer.bits[c.bits] == stored.bits[c.bits]
    ensures height == 0 || !stored.bits[c.bits] ==>
              Extract(combine, n, longer, height, pos, c) == Extract(combine, n, stored, height, pos, c)
  {
  }

  // Whatever bits and hashes are supplied: failure sticks, no cursor passes the end of its array, and
  // the number of calls is bounded by the number of bits read.
  lemma {:induction false} ExtractBounds(combine: Combine, n: nat, stored: Stored, height: nat, pos: nat, c: Cursor)
    requires c.bits <= |stored.bits| && c.hashes <= |stored.hashes|
    ensures var c' := Extract(combine, n, stored, height, pos, c).1;
            && (c.bad ==> c'.bad)
            && c.bits <= c'.bits <= |stored.bits| && c.hashes <= c'.hashes <= |stored.hashes|
            && c'.calls <= c.calls + 2 * (c'.bits - c.bits) + 1
    decreases height
  {
    if height > 0 && c.bits < |stored.bits| && stored.bits[c.bits] {
      var c1 := c.(bits := c.bits + 1, calls := c.calls + 1);
      ExtractBounds(combine, n, stored, height - 1, 2 * pos, c1);
      if 2 * pos + 1 < CalcTreeWidth(n, height - 1) {
        ExtractBounds(combine, n, stored, height - 1, 2 * pos + 1,
                      Extract(combine, n, stored, height - 1, 2 * pos, c1).1);
      }
    }
  }

  // A traversal that does not fail reads only up to its cursors: anything behind changes nothing.
  lemma {:induction false} ExtractExtended(combine: Combine, n: nat, stored: Stored, longer: Stored, height: nat,
                                           pos: nat, c: Cursor)
    requires stored.bits <= longer.bits && stored.hashes <= longer.hashes
    requires c.bits <= |stored.bits| && c.hashes <= |stored.hashes|
    requires !Extract(combine, n, stored, height, pos, c).1.bad
    ensures Extract(combine, n, longer, height, pos, c) == Extract(combine, n, stored, height, pos, c)
    decreases height
  {
    ExtractStopExtended(combine, n, stored, longer, height, pos, c);
    hide Extract, CalcTreeWidth;
    if height > 0 && stored.bits[c.bits] {
      var c1 := c.(bits := c.bits + 1, calls := c.calls + 1);
      ExtractInner(combine, n, stored, height, pos, c);
      ExtractInner(combine, n, longer, height, pos, c);
      ExtractBounds(combine, n, stored, height - 1, 2 * pos, c1);
      var (left, c2) := Extract(combine, n, stored, height - 1, 2 * pos, c1);
      if 2 * pos + 1 < CalcTreeWidth(n, height - 1) {
        ExtractBounds(combine, n, stored, height - 1, 2 * pos + 1, c2);
        ExtractExtended(combine, n, stored, longer, height - 1, 2 * pos, c1);
        ExtractExtended(combine, n, stored, longer, height - 1, 2 * pos + 1, c2);
      } else {
        ExtractExtended(combine, n, stored, longer, height - 1, 2 * pos, c1);
      }
    }
  }

  // What the encoder stores at an inner node that it descends into.
  lemma BuildInner(combine: Combine, txid: seq<Digest>, match_: seq<bool>, height: nat, pos: nat)
    requires |txid| == |match_| && First(height, pos) < |txid| && height > 0
    requires AnyMatch(match_, First(height, pos), First(height, pos + 1))
    ensures First(height - 1, 2 * pos) < |txid|
    ensures var part := Build(combine, txid, match_, height, pos);
            var left := Build(combine, txid, match_, height - 1, 2 * pos);
            if First(height - 1, 2 * pos + 1) < |txid| then
              var right := Build(combine, txid, match_, height - 1, 2 * pos + 1);
              && part.bits == [true] + left.bits + right.bits && part.hashes == left.hashes + right.hashes
              && CalcHash(combine, txid, height, pos)
                 == combine(CalcHash(combine, txid, height - 1, 2 * pos),
                            CalcHash(combine, txid, height - 1, 2 * pos + 1))
            else
              && part.bits == [true] + left.bits && part.hashes == left.hashes
              && CalcHash(combine, txid, height, pos)
                 == combine(CalcHash(combine, txid, height - 1, 2 * pos), CalcHash(combine, txid, height - 1, 2 * pos))
  {
    Children(|txid|, height, pos);
  }

  // The leaves of an inner node are those of its children.
  lemma SelectedInner(txid: seq<Digest>, match_: seq<bool>, height: nat, pos: nat)
    requires |txid| == |match_| && First(height, pos) < |txid| && height > 0
    ensures First(height - 1, 2 * pos) == First(height, pos)
    ensures var n := |txid|;
            var left, right := End(n, height - 1, 2 * pos), End(n, height - 1, 2 * pos + 1);
            && left <= n && right <= n && End(n, height, pos) == right
            && if First(height - 1, 2 * pos + 1) < n then
                 Selected(txid, match_, First(height, pos), right)
                 == Selected(txid, match_, First(height, pos), left)
                    + Selected(txid, match_, First(height - 1, 2 * pos + 1), right)
               else left == right
  {
    hide First, Selected;
    var n := |txid|;
    Children(n, height, pos);
    EndIsBound(n, height - 1, 2 * pos);
    if First(height - 1, 2 * pos + 1) < n {
      EndIsBound(n, height - 1, 2 * pos + 1);
      SelectedSplits(txid, match_, First(height, pos), First(height - 1, 2 * pos + 1), End(n, height, pos));
    }
  }

  // An inner node decodes if its children do.
  lemma DecodesInner(combine: Combine, txid: seq<Digest>, match_: seq<bool>, stored: Stored,
                     height: nat, pos: nat, c: Cursor)
    requires |txid| == |match_| && First(height, pos) < |txid| && height > 0
    requires AnyMatch(match_, First(height, pos), First(height, pos + 1))
    requires c.bits < |stored.bits| && stored.bits[c.bits] && First(height - 1, 2 * pos) < |txid|
    requires var c1 := c.(bits := c.bits + 1, calls := c.calls + 1);
             && Decodes(combine, txid, match_, stored, height - 1, 2 * pos, c1)
             && (First(height - 1, 2 * pos + 1) < |txid| ==>
                   Decodes(combine, txid, match_, stored, height - 1, 2 * pos + 1,
                           Extract(combine, |txid|, stored, height - 1, 2 * pos, c1).1))
    ensures Decodes(combine, txid, match_, stored, height, pos, c)
  {
    hide First, CalcTreeWidth, Extract, AnyMatch, Selected, Build, CalcHash, End;
    var n := |txid|;
    BuildInner(combine, txid, match_, height, pos);
    SelectedInner(txid, match_, height, pos);
    WidthMeans(n, height - 1, 2 * pos + 1);
    ExtractInner(combine, n, stored, height, pos, c);
    var c1 := c.(bits := c.bits + 1, calls := c.calls + 1);
    var lo, mid, hi := First(height, pos), First(height - 1, 2 * pos + 1), End(n, height - 1, 2 * pos + 1);
    var (left, c2) := Extract(combine, n, stored, height - 1, 2 * pos, c1);
    var one := Selected(txid, match_, lo, End(n, height - 1, 2 * pos));
    assert c2.found == c.found + one;
    if mid < n {
      var (right, c3) := Extract(combine, n, stored, height - 1, 2 * pos + 1, c2);
      var other := Selected(txid, match_, mid, hi);
      assert Selected(txid, match_, lo, hi) == one + other;
      assert c3.found == c2.found + other;
      assert c.found + one + other == c.found + (one + other);
      assert Extract(combine, n, stored, height, pos, c) == (combine(left, right), c3);
    } else {
      assert Extract(combine, n, stored, height, pos, c) == (combine(left, left), c2);
    }
  }

  lemma {:induction false} ExtractBuilt(combine: Combine, txid: seq<Digest>, match_: seq<bool>, stored: Stored,
                                        height: nat, pos: nat, c: Cursor)
    requires |txid| == |match_| && First(height, pos) < |txid|
    requires !c.bad && StandsAt(stored, Build(combine, txid, match_, height, pos), c)
    ensures Decodes(combine, txid, match_, stored, height, pos, c)
    decreases height
  {
    hide First, CalcTreeWidth, Extract, AnyMatch, Selected, Build, CalcHash, End, Pow2;
    var n := |txid|;
    if height == 0 || !AnyMatch(match_, First(height, pos), First(height, pos + 1)) {
      DecodesStop(combine, txid, match_, stored, height, pos, c);
    } else {
      BuildInner(combine, txid, match_, height, pos);
      var part := Build(combine, txid, match_, height, pos);
      var left := Build(combine, txid, match_, height - 1, 2 * pos);
      var c1 := c.(bits := c.bits + 1, calls := c.calls + 1);
      var right := if First(height - 1, 2 * pos + 1) < n
                   then Build(combine, txid, match_, height - 1, 2 * pos + 1) else Stored([], []);
      hide StandsAt;
      ChildrenStand(stored, part, left, right, c, c1);
      ExtractBuilt(combine, txid, match_, stored, height - 1, 2 * pos, c1);
      if First(height - 1, 2 * pos + 1) < n {
        var c2 := Extract(combine, n, stored, height - 1, 2 * pos, c1).1;
        ExtractBuilt(combine, txid, match_, stored, height - 1, 2 * pos + 1, c2);
      }
      hide Decodes;
      DecodesInner(combine, txid, match_, stored, height, pos, c);
    }
  }

  // Between the cursors c and c' only real ids were found: each is the id at its leaf position, and the
  // positions rise from lo up to hi.
  ghost predicate FoundReal(txid: seq<Digest>, c: Cursor, c': Cursor, lo: nat, hi: nat) {
    && |c.found| == |c.positions| && |c'.found| == |c'.positions|
    && c.found <= c'.found && c.positions <= c'.positions && hi <= |txid|
    && (forall k | |c.found| <= k < |c'.found| ::
          lo <= c'.positions[k] < hi && c'.found[k] == txid[c'.positions[k]])
    && (forall j, k | |c.found| <= j < k < |c'.found| :: c'.positions[j] < c'.positions[k])
  }

  lemma FoundRealTransitive(txid: seq<Digest>, c: Cursor, c1: Cursor, c2: Cursor, lo: nat, mid: nat, hi: nat)
    requires FoundReal(txid, c, c1, lo, mid) && FoundReal(txid, c1, c2, mid, hi) && lo <= mid <= hi
    ensures FoundReal(txid, c, c2, lo, hi)
  {
  }

  // Two different pairs with the same hash.
  datatype Collision = NoCollision | Collision(a: Digest, b: Digest, c: Digest, d: Digest)

  ghost predicate IsCollision(combine: Combine, x: Collision) {
    x.Collision? && (x.a != x.c || x.b != x.d) && combine(x.a, x.b) == combine(x.c, x.d)
  }

  lemma ExtractStopSound(combine: Combine, txid: seq<Digest>, stored: Stored, height: nat, pos: nat, c: Cursor)
    requires First(height, pos) < |txid| && |c.found| == |c.positions|
    requires height == 0 || c.bits >= |stored.bits| || !stored.bits[c.bits]
    requires var (hash, c') := Extract(combine, |txid|, stored, height, pos, c);
             !c'.bad && hash == CalcHash(combine, txid, height, pos)
    ensures FoundReal(txid, c, Extract(combine, |txid|, stored, height, pos, c).1,
                      First(height, pos), End(|txid|, height, pos))
  {
    EndIsBound(|txid|, height, pos);
    LeafNode(|txid|, pos);
  }

  lemma FoundRealEnds(txid: seq<Digest>, c: Cursor, c': Cursor, lo: nat, hi: nat)
    requires FoundReal(txid, c, c', lo, hi)
    ensures |c'.found| == |c'.positions|
  {
  }

  lemma FoundRealFrom(txid: seq<Digest>, c: Cursor, c1: Cursor, c2: Cursor, lo: nat, hi: nat)
    requires FoundReal(txid, c1, c2, lo, hi) && c.found == c1.found && c.positions == c1.positions
    ensures FoundReal(txid, c, c2, lo, hi)
  {
  }

  // The hash of an inner node, and which leaves its children have.
  lemma CalcHashInner(combine: Combine, txid: seq<Digest>, height: nat, pos: nat)
    requires First(height, pos) < |txid| && height > 0
    ensures var n := |txid|;
            var mid := First(height - 1, 2 * pos + 1);
            && First(height - 1, 2 * pos) == First(height, pos) < mid
            && First(height, pos) <= End(n, height, pos)
            && CalcHash(combine, txid, height, pos) == combine(
                 CalcHash(combine, txid, height - 1, 2 * pos),
                 if mid < n then CalcHash(combine, txid, height - 1, 2 * pos + 1)
                 else CalcHash(combine, txid, height - 1, 2 * pos))
            && if mid < n then
                 && mid <= End(n, height, pos)
                 && End(n, height - 1, 2 * pos) == mid && End(n, height - 1, 2 * pos + 1) == End(n, height, pos)
               else End(n, height - 1, 2 * pos) == End(n, height, pos)
  {
    Children(|txid|, height, pos);
    hide First, CalcTreeWidth;
    EndIsBound(|txid|, height, pos);
  }

  // If a node decodes without failure to its true hash, then either only real ids were found below it,
  // or the decoding exhibits a collision of the hash.
  lemma {:induction false} ExtractSound(combine: Combine, txid: seq<Digest>, stored: Stored,
                                        height: nat, pos: nat, c: Cursor) returns (x: Collision)
    requires First(height, pos) < |txid| && |c.found| == |c.positions|
    requires c.bits <= |stored.bits| && c.hashes <= |stored.hashes|
    requires var (hash, c') := Extract(combine, |txid|, stored, height, pos, c);
             !c'.bad && hash == CalcHash(combine, txid, height, pos)
    ensures x == NoCollision ==>
              FoundReal(txid, c, Extract(combine, |txid|, stored, height, pos, c).1,
                        First(height, pos), End(|txid|, height, pos))
    ensures x != NoCollision ==> IsCollision(combine, x)
    decreases height
  {
    hide First, CalcTreeWidth, Extract, CalcHash, FoundReal, End;
    var n := |txid|;
    if height == 0 || c.bits >= |stored.bits| || !stored.bits[c.bits] {
      ExtractStopSound(combine, txid, stored, height, pos, c);
      return NoCollision;
    }
    CalcHashInner(combine, txid, height, pos);
    ExtractInner(combine, n, stored, height, pos, c);
    WidthMeans(n, height - 1, 2 * pos + 1);
    var c1 := c.(bits := c.bits + 1, calls := c.calls + 1);
    var (left, c2) := Extract(combine, n, stored, height - 1, 2 * pos, c1);
    var trueLeft := CalcHash(combine, txid, height - 1, 2 * pos);
    ExtractBounds(combine, n, stored, height - 1, 2 * pos, c1);
    if First(height - 1, 2 * pos + 1) < n {
      var (right, c3) := Extract(combine, n, stored, height - 1, 2 * pos + 1, c2);
      var trueRight := CalcHash(combine, txid, height - 1, 2 * pos + 1);
      ExtractBounds(combine, n, stored, height - 1, 2 * pos + 1, c2);
      if left != trueLeft || right != trueRight {
        return Collision(left, right, trueLeft, trueRight);
      }
      x := ExtractSound(combine, txid, stored, height - 1, 2 * pos, c1);
      if x == NoCollision {
        FoundRealEnds(txid, c1, c2, First(height, pos), First(height - 1, 2 * pos + 1));
        x := ExtractSound(combine, txid, stored, height - 1, 2 * pos + 1, c2);
        if x == NoCollision {
          FoundRealTransitive(txid, c1, c2, c3, First(height, pos), First(height - 1, 2 * pos + 1),
                              End(n, height, pos));
          FoundRealFrom(txid, c, c1, c3, First(height, pos), End(n, height, pos));
        }
      }
    } else {
      if left != trueLeft {
        return Collision(left, left, trueLeft, trueLeft);
      }
      x := ExtractSound(combine, txid, stored, height - 1, 2 * pos, c1);
      if x == NoCollision {
        FoundRealFrom(txid, c, c1, c2, First(height, pos), End(n, height, pos));
      }
    }
  }

  // The number of selected leaves from lo up to hi.
  function Count(match_: seq<bool>, lo: nat, hi: nat): nat
    requires hi <= |match_|
    decreases hi - lo
  {
    if hi <= lo then 0 else (if match_[lo] then 1 else 0) + Count(match_, lo + 1, hi)
  }

  lemma {:induction false} CountSplits(match_: seq<bool>, lo: nat, mid: nat, hi: nat)
    requires lo <= mid <= hi <= |match_|
    ensures Count(match_, lo, hi) == Count(match_, lo, mid) + Count(match_, mid, hi)
    decreases mid - lo
  {
    if lo < mid {
      CountSplits(match_, lo + 1, mid, hi);
    }
  }

  lemma {:induction false} CountPositive(match_: seq<bool>, lo: nat, hi: nat)
    requires hi <= |match_|
    ensures Count(match_, lo, hi) > 0 <==> AnyMatch(match_, lo, hi)
    decreases hi - lo
  {
    if lo < hi {
      CountPositive(match_, lo + 1, hi);
      if AnyMatch(match_, lo, hi) && !match_[lo] {
        var p :| lo <= p < hi && match_[p];
        assert AnyMatch(match_, lo + 1, hi);
      }
    }
  }

  // The number of traversed nodes that have a single child.
  function SingleChildren(match_: seq<bool>, height: nat, pos: nat): nat
    requires First(height, pos) < |match_|
    decreases height
  {
    if height == 0 || !AnyMatch(match_, First(height, pos), First(height, pos + 1)) then 0
    else
      Children(|match_|, height, pos);
      if First(height - 1, 2 * pos + 1) < |match_| then
        SingleChildren(match_, height - 1, 2 * pos) + SingleChildren(match_, height - 1, 2 * pos + 1)
      else 1 + SingleChildren(match_, height - 1, 2 * pos)
  }

  ghost predicate SizesHold(combine: Combine, txid: seq<Digest>, match_: seq<bool>, height: nat, pos: nat)
    requires |txid| == |match_| && First(height, pos) < |txid|
  {
    var part := Build(combine, txid, match_, height, pos);
    var lo, hi := First(height, pos), End(|txid|, height, pos);
    && hi <= |txid|
    && 1 <= |part.hashes| <= 1 + Count(match_, lo, hi) * height
    && |part.hashes| <= hi - lo
    && |part.bits| == 2 * |part.hashes| - 1 + SingleChildren(match_, height, pos)
  }

  lemma SizesHoldAtStop(combine: Combine, txid: seq<Digest>, match_: seq<bool>, height: nat, pos: nat)
    requires |txid| == |match_| && First(height, pos) < |txid|
    requires height == 0 || !AnyMatch(match_, First(height, pos), First(height, pos + 1))
    ensures SizesHold(combine, txid, match_, height, pos)
  {
    EndIsBound(|txid|, height, pos);
    assert Count(match_, First(height, pos), End(|txid|, height, pos)) * height >= 0;
  }

  lemma HashesOfTwo(a: nat, b: nat, height: nat)
    requires height > 0 && a + b > 0
    ensures 1 + a * (height - 1) + (1 + b * (height - 1)) <= 1 + (a + b) * height
  {
  }

  lemma HashesOfOne(a: nat, height: nat)
    requires height > 0
    ensures 1 + a * (height - 1) <= 1 + a * height
  {
  }

  lemma SingleChildrenInner(match_: seq<bool>, height: nat, pos: nat)
    requires First(height, pos) < |match_| && height > 0 && AnyMatch(match_, First(height, pos), First(height, pos + 1))
    ensures First(height - 1, 2 * pos) < |match_|
    ensures SingleChildren(match_, height, pos) ==
              if First(height - 1, 2 * pos + 1) < |match_| then
                SingleChildren(match_, height - 1, 2 * pos) + SingleChildren(match_, height - 1, 2 * pos + 1)
              else 1 + SingleChildren(match_, height - 1, 2 * pos)
  {
  }

  lemma CountInner(match_: seq<bool>, height: nat, pos: nat)
    requires First(height, pos) < |match_| && height > 0
    ensures var n := |match_|;
            var lo, mid, hi := First(height, pos), First(height - 1, 2 * pos + 1), End(n, height, pos);
            && First(height - 1, 2 * pos) == lo < mid && hi <= n
            && AnyMatch(match_, lo, First(height, pos + 1)) == (Count(match_, lo, hi) > 0)
            && if mid < n then
                 && mid < hi && End(n, height - 1, 2 * pos) == mid && End(n, height - 1, 2 * pos + 1) == hi
                 && Count(match_, lo, hi) == Count(match_, lo, mid) + Count(match_, mid, hi)
               else End(n, height - 1, 2 * pos) == hi
  {
    hide First, Count, CalcTreeWidth;
    var n := |match_|;
    var lo, mid, hi := First(height, pos), First(height - 1, 2 * pos + 1), End(n, height, pos);
    Children(n, height, pos);
    EndIsBound(n, height, pos);
    EndIsBound(n, height - 1, 2 * pos);
    CountPositive(match_, lo, hi);
    if mid < n {
      EndIsBound(n, height - 1, 2 * pos + 1);
      CountSplits(match_, lo, mid, hi);
    }
  }

  // The sizes the format promises. The remark that there are at most 2 N - 1 flag bits for N hashes holds
  // exactly if no traversed node has a single child.
  lemma {:induction false} BuildSizes(combine: Combine, txid: seq<Digest>, match_: seq<bool>, height: nat, pos: nat)
    requires |txid| == |match_| && First(height, pos) < |txid|
    ensures SizesHold(combine, txid, match_, height, pos)
    decreases height
  {
    var n := |txid|;
    if height == 0 || !AnyMatch(match_, First(height, pos), First(height, pos + 1)) {
      SizesHoldAtStop(combine, txid, match_, height, pos);
    } else {
      hide First, Build, Count, CalcHash, CalcTreeWidth, End, AnyMatch, SingleChildren;
      BuildInner(combine, txid, match_, height, pos);
      SingleChildrenInner(match_, height, pos);
      CountInner(match_, height, pos);
      BuildSizes(combine, txid, match_, height - 1, 2 * pos);
      var lo, mid, hi := First(height, pos), First(height - 1, 2 * pos + 1), End(n, height, pos);
      if mid < n {
        BuildSizes(combine, txid, match_, height - 1, 2 * pos + 1);
        HashesOfTwo(Count(match_, lo, mid), Count(match_, mid, hi), height);
      } else {
        HashesOfOne(Count(match_, lo, hi), height);
      }
    }
  }

  lemma FlagBitsRemark(combine: Combine, txid: seq<Digest>, match_: seq<bool>, height: nat, pos: nat)
    requires |txid| == |match_| && First(height, pos) < |txid|
    ensures var part := Build(combine, txid, match_, height, pos);
            |part.bits| <= 2 * |part.hashes| - 1 <==> SingleChildren(match_, height, pos) == 0
  {
    BuildSizes(combine, txid, match_, height, pos);
  }

  // The remark fails for three ids of which the last is selected: four bits for two hashes.
  lemma FlagBitsRemarkFails(combine: Combine, txid: seq<Digest>)
    requires |txid| == 3
    ensures IsTreeHeight(3, 2) && First(2, 0) < 3
    ensures var part := Build(combine, txid, [false, false, true], 2, 0);
            && part.bits == [true, false, true, true] && |part.bits| > 2 * |part.hashes| - 1
            && part.hashes == [combine(txid[0], txid[1]), txid[2]]
  {
    var match_ := [false, false, true];
    assert Pow2(1) == 2 && Pow2(2) == 4;
    assert match_[2];
    assert AnyMatch(match_, 0, 4) && !AnyMatch(match_, 0, 2) && AnyMatch(match_, 2, 4) && AnyMatch(match_, 2, 3);
    assert SingleChildren(match_, 0, 2) == 0;
    assert SingleChildren(match_, 1, 1) == 1 by {
      assert First(1, 1) == 2 && First(1, 2) == 4 && First(0, 3) == 3;
    }
    assert Build(combine, txid, match_, 0, 2).hashes == [txid[2]];
    assert Build(combine, txid, match_, 1, 1) == Stored([true, true], [txid[2]]) by {
      assert First(1, 1) == 2 && First(1, 2) == 4;
    }
    assert Build(combine, txid, match_, 1, 0) == Stored([false], [combine(txid[0], txid[1])]) by {
      assert First(1, 0) == 0 && First(1, 1) == 2 && First(0, 1) == 1;
      assert CalcHash(combine, txid, 0, 0) == txid[0] && CalcHash(combine, txid, 0, 1) == txid[1];
    }
  }
}
