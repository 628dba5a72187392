// The tree of block index entries (src/persistence/block.h, CBlockIndex) and the parent walk that
// every other view of it (the path arrays, the skip list, the locators) is measured against.

module BlockTree {

  type Hash = nat

  // An index entry. The links are written once, when the entry is made, so they are constants here;
  // the two failure bits of nStatus are the only part that chain selection changes.
  class BlockIndex {
    const hash: Hash
    const address: nat      // stands for the pointer value, the comparator's last tie breaker
    const sequenceId: nat
    const height: nat
    const pprev: BlockIndex?
    const pskip: BlockIndex?
    var failedValid: bool   // BLOCK_FAILED_VALID
    var failedChild: bool   // BLOCK_FAILED_CHILD

    // A new entry has the status BLOCK_VALID_TRANSACTIONS | BLOCK_HAVE_DATA: no failure bit is set.
    constructor (hash: Hash, address: nat, sequenceId: nat, pprev: BlockIndex?, pskip: BlockIndex?)
      ensures this.hash == hash && this.address == address && this.sequenceId == sequenceId
      ensures this.pprev == pprev && this.pskip == pskip
      ensures height == if pprev == null then 0 else pprev.height + 1
      ensures !failedValid && !failedChild
    {
      this.hash, this.address, this.sequenceId := hash, address, sequenceId;
      this.pprev, this.pskip := pprev, pskip;
      this.height := if pprev == null then 0 else pprev.height + 1;
      this.failedValid, this.failedChild := false, false;
    }

    // nStatus & BLOCK_FAILED_MASK
    predicate Failed()
      reads this
    {
      failedValid || failedChild
    }
  }

  // Heights count the steps to a block without a parent.
  ghost predicate Linked(b: BlockIndex)
    decreases b.height
  {
    if b.pprev == null then b.height == 0 else b.height == b.pprev.height + 1 && Linked(b.pprev)
  }

  // The block reached from b by following pprev down to height h.
  ghost function Ancestor(b: BlockIndex, h: nat): (a: BlockIndex)
    requires Linked(b) && h <= b.height
    ensures Linked(a) && a.height == h
    ensures h == b.height ==> a == b
    decreases b.height
  {
    if h == b.height then b else Ancestor(b.pprev, h)
  }

  // a is b or lies on b's way back to its root.
  ghost predicate IsAncestor(a: BlockIndex, b: BlockIndex)
    requires Linked(b)
  {
    a.height <= b.height && Ancestor(b, a.height) == a
  }

  lemma {:induction false} AncestorOfAncestor(b: BlockIndex, h: nat, k: nat)
    requires Linked(b) && k <= h <= b.height
    ensures Ancestor(Ancestor(b, h), k) == Ancestor(b, k)
    decreases b.height
  {
    if h < b.height {
      AncestorOfAncestor(b.pprev, h, k);
    }
  }

  lemma AncestorParent(b: BlockIndex, h: nat)
    requires Linked(b) && h <= b.height
    ensures Ancestor(b, h).pprev == if h == 0 then null else Ancestor(b, h - 1)
  {
    if h > 0 {
      AncestorOfAncestor(b, h, h - 1);
    }
  }

  // A set of entries that is closed under pprev, with distinct hashes and addresses.
  ghost predicate Tree(blocks: set<BlockIndex>)
  {
    && (forall b <- blocks :: Linked(b) && (b.pprev != null ==> b.pprev in blocks))
    && (forall a, b | a in blocks && b in blocks && a != b :: a.hash != b.hash && a.address != b.address)
  }

  lemma InTree(blocks: set<BlockIndex>, b: BlockIndex)
    requires Tree(blocks) && b in blocks
    ensures Linked(b) && (b.pprev != null ==> b.pprev in blocks)
  {
  }

  lemma {:induction false} AncestorInTree(blocks: set<BlockIndex>, b: BlockIndex, h: nat)
    requires Tree(blocks) && b in blocks && h <= b.height
    ensures Ancestor(b, h) in blocks
    decreases b.height
  {
    if h < b.height {
      AncestorInTree(blocks, b.pprev, h);
    }
  }

  lemma TreeGrows(blocks: set<BlockIndex>, b: BlockIndex)
    requires Tree(blocks) && (b.pprev != null ==> b.pprev in blocks)
    requires b.height == if b.pprev == null then 0 else b.pprev.height + 1
    requires forall c <- blocks :: c.hash != b.hash && c.address != b.address
    ensures Tree(blocks + {b})
  {
  }

  // CBlockIndexWorkComparator: higher first, then earlier received, then by address.
  predicate Less(a: BlockIndex, b: BlockIndex)
  {
    if a.height != b.height then a.height < b.height
    else if a.sequenceId != b.sequenceId then a.sequenceId > b.sequenceId
    else a.address > b.address
  }

  predicate IsGreatest(b: BlockIndex, s: set<BlockIndex>)
  {
    b in s && forall c <- s :: c == b || Less(c, b)
  }

  lemma {:induction false} GreatestExists(blocks: set<BlockIndex>, s: set<BlockIndex>) returns (b: BlockIndex)
    requires Tree(blocks) && s <= blocks && s != {}
    ensures IsGreatest(b, s)
    decreases |s|
  {
    b :| b in s;
    if s != {b} {
      var rest := s - {b};
      assert s == rest + {b};
      var c := GreatestExists(blocks, rest);
      assert forall d <- s :: d == b || d in rest;
      if Less(b, c) {
        b := c;
      }
    }
  }
}
