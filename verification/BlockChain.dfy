// An in-memory chain of blocks (src/chain/chain.cpp, CChain): the path from a root to a tip, indexed
// by height.

module BlockChain {
  import opened Bits
  import opened BlockTree
  import opened SkipList

  // The slots hold a root's path: slot i is the last slot's ancestor at height i.
  ghost predicate IsPath(s: seq<BlockIndex?>)
  {
    s == [] ||
    (var tip := s[|s| - 1];
     && tip != null && Linked(tip) && tip.height == |s| - 1
     && forall i | 0 <= i < |s| :: s[i] == Ancestor(tip, i))
  }

  // The slot at height h holds p's ancestor at that height.
  ghost predicate SharesAt(s: seq<BlockIndex?>, p: BlockIndex, h: int)
    requires Linked(p)
  {
    0 <= h <= p.height && h < |s| && s[h] == Ancestor(p, h)
  }

  predicate Holds(s: seq<BlockIndex?>, b: BlockIndex) {
    b.height < |s| && s[b.height] == b
  }

  // Two paths that agree at a height agree below it.
  lemma SharesBelow(s: seq<BlockIndex?>, p: BlockIndex, h: int, k: int)
    requires IsPath(s) && Linked(p) && SharesAt(s, p, h) && 0 <= k <= h
    ensures SharesAt(s, p, k)
  {
    AncestorOfAncestor(p, h, k);
    AncestorOfAncestor(s[|s| - 1], h, k);
  }

  ghost function LastOf(s: seq<BlockIndex?>): BlockIndex? {
    if s == [] then null else s[|s| - 1]
  }

  // A path is determined by its tip.
  lemma SamePath(s: seq<BlockIndex?>, t: seq<BlockIndex?>)
    requires IsPath(s) && IsPath(t) && LastOf(s) == LastOf(t)
    ensures s == t
  {
  }

  // Slots are linked by pprev.
  lemma SlotParent(s: seq<BlockIndex?>, i: nat)
    requires IsPath(s) && i < |s|
    ensures s[i] != null && s[i].height == i && s[i].pprev == if i == 0 then null else s[i - 1]
  {
    AncestorParent(LastOf(s), i);
  }

  // Below the tip lies its parent's path.
  lemma ParentPath(s: seq<BlockIndex?>)
    requires IsPath(s) && s != []
    ensures LastOf(s) != null && Linked(LastOf(s)) && LastOf(s).height == |s| - 1
    ensures IsPath(s[..|s| - 1]) && LastOf(s).pprev == LastOf(s[..|s| - 1])
  {
  }

  // Why SetTip may stop early: the slots it leaves alone already hold p's ancestors.
  lemma OverwrittenPath(before: seq<BlockIndex?>, after: seq<BlockIndex?>, p: BlockIndex, k: int)
    requires IsPath(before) && Linked(p) && |after| == p.height + 1
    requires -1 <= k <= p.height
    requires forall i | k < i <= p.height :: after[i] == Ancestor(p, i)
    requires k >= 0 ==> SharesAt(before, p, k)
    requires forall i | 0 <= i <= k :: after[i] == before[i]
    ensures IsPath(after) && after[p.height] == p
  {
    forall i | 0 <= i <= k
      ensures after[i] == Ancestor(p, i)
    {
      SharesBelow(before, p, k, i);
    }
  }

  ghost predicate Descends(s: seq<BlockIndex?>, p: BlockIndex, entries: seq<BlockIndex>)
  {
    && Linked(p) && (entries != [] ==> entries[0] == p)
    && (forall i, j | 0 <= i < j < |entries| :: entries[i].height > entries[j].height)
    && (forall i | 0 < i < |entries| :: IsAncestor(entries[i], p) && Holds(s, entries[i]))
  }

  // A locator for p: strictly falling from p to height 0, and from the second entry on made of
  // ancestors of p that the path s holds.
  ghost predicate IsLocator(s: seq<BlockIndex?>, p: BlockIndex, entries: seq<BlockIndex>)
  {
    Descends(s, p, entries) && entries != [] && entries[|entries| - 1].height == 0
  }

  // The step back that GetLocator takes after n entries, and how far all steps so far have led.
  function StepAfter(n: nat): nat {
    if n <= 10 then 1 else Pow2(n - 10)
  }

  function DroppedAfter(n: nat): nat {
    if n <= 10 then n else 9 + Pow2(n - 10)
  }

  // b is the highest ancestor of p on the path s that is at least a step below another one; height 0 is far
  // enough below any.
  ghost predicate IsStepBack(s: seq<BlockIndex?>, p: BlockIndex, above: BlockIndex, step: nat, b: BlockIndex)
    requires Linked(p)
  {
    var top := if above.height > step then above.height - step else 0;
    b.height <= top && forall h | b.height < h <= top :: !SharesAt(s, p, h)
  }

  // The first twelve entries are taken one by one, then the steps double.
  ghost predicate IsSpaced(s: seq<BlockIndex?>, p: BlockIndex, entries: seq<BlockIndex>)
    requires Linked(p)
  {
    forall i | 0 < i < |entries| :: IsStepBack(s, p, entries[i - 1], StepAfter(i - 1), entries[i])
  }

  lemma StepsDouble(n: nat)
    ensures DroppedAfter(n + 1) == DroppedAfter(n) + StepAfter(n)
    ensures StepAfter(n + 1) == if n < 10 then StepAfter(n) else 2 * StepAfter(n)
    ensures n >= 11 ==> StepAfter(n) == Pow2(n - 10) == DroppedAfter(n) - 9
    ensures StepAfter(n) >= 1
  {
  }

  // The heights in the locator of a block on the path itself.
  lemma {:induction false} LocatorHeights(s: seq<BlockIndex?>, p: BlockIndex, entries: seq<BlockIndex>, i: nat)
    requires IsPath(s) && Holds(s, p) && IsLocator(s, p, entries) && IsSpaced(s, p, entries) && i < |entries|
    ensures var far := if i <= 11 then i else 9 + Pow2(i - 10);
            entries[i].height == if p.height > far then p.height - far else 0
  {
    hide Linked, Ancestor, IsPath;
    if i > 0 {
      LocatorHeights(s, p, entries, i - 1);
      StepsDouble(i - 1);
      var h := if entries[i - 1].height > StepAfter(i - 1) then entries[i - 1].height - StepAfter(i - 1) else 0;
      assert SharesAt(s, p, p.height) by {
        assert Ancestor(p, p.height) == p;
      }
      SharesBelow(s, p, p.height, h);
    }
  }

  function Hashes(entries: seq<BlockIndex>): (hashes: seq<Hash>)
    ensures |hashes| == |entries|
    ensures forall i | 0 <= i < |entries| :: hashes[i] == entries[i].hash
  {
    seq(|entries|, i requires 0 <= i < |entries| => entries[i].hash)
  }

  lemma NothingListed(s: seq<BlockIndex?>, p: BlockIndex?)
    ensures Hashes([]) == [] && (p != null && Linked(p) ==> Descends(s, p, []) && IsSpaced(s, p, []))
    ensures StepAfter(0) == 1 && DroppedAfter(0) == 0
  {
  }

  lemma SpacedFurther(s: seq<BlockIndex?>, p: BlockIndex, entries: seq<BlockIndex>, b: BlockIndex)
    requires Linked(p) && IsSpaced(s, p, entries)
    requires entries != [] ==> IsStepBack(s, p, entries[|entries| - 1], StepAfter(|entries| - 1), b)
    ensures IsSpaced(s, p, entries + [b])
  {
    hide IsStepBack;
  }

  lemma StepBackIs(s: seq<BlockIndex?>, p: BlockIndex, above: BlockIndex, step: nat, b: BlockIndex)
    requires Linked(p)
    requires var top := if above.height > step then above.height - step else 0;
             b.height <= top && forall h | b.height < h <= top :: !SharesAt(s, p, h)
    ensures IsStepBack(s, p, above, step, b)
  {
  }

  lemma DescendsFurther(s: seq<BlockIndex?>, p: BlockIndex, entries: seq<BlockIndex>, b: BlockIndex)
    requires Descends(s, p, entries)
    requires if entries == [] then b == p
             else b.height < entries[|entries| - 1].height && IsAncestor(b, p) && Holds(s, b)
    ensures Descends(s, p, entries + [b])
  {
  }

  lemma HashesGrow(entries: seq<BlockIndex>, b: BlockIndex)
    ensures Hashes(entries + [b]) == Hashes(entries) + [b.hash]
  {
  }

  // The locator entry i names a block of the path s.
  predicate Known(s: seq<BlockIndex?>, index: map<Hash, BlockIndex>, locator: seq<Hash>, i: nat)
    requires i < |locator|
  {
    locator[i] in index && Holds(s, index[locator[i]])
  }

  // r is the block of the first known entry, or else the root of s.
  ghost predicate IsFork(s: seq<BlockIndex?>, index: map<Hash, BlockIndex>, locator: seq<Hash>, r: BlockIndex?)
  {
    if exists i: nat :: i < |locator| && Known(s, index, locator, i) then
      exists i: nat :: i < |locator| && Known(s, index, locator, i) && r == index[locator[i]]
                       && forall j: nat | j < i :: !Known(s, index, locator, j)
    else r == if s == [] then null else s[0]
  }

  // Of p's ancestors the path s holds exactly those up to the last common block.
  lemma KnownUpToFork(blocks: set<BlockIndex>, s: seq<BlockIndex?>, index: map<Hash, BlockIndex>,
                      p: BlockIndex, common: nat, e: BlockIndex)
    requires Tree(blocks) && index.Values <= blocks && (forall h <- index :: index[h].hash == h)
    requires IsPath(s) && (forall i | 0 <= i < |s| :: s[i] in index.Values)
    requires p in blocks && IsAncestor(e, p)
    requires SharesAt(s, p, common) && forall h | h > common :: !SharesAt(s, p, h)
    ensures e.hash in index && Holds(s, index[e.hash]) <==> e.height <= common
    ensures e.hash in index ==> index[e.hash] == e
  {
    hide Ancestor, IsPath;
    AncestorInTree(blocks, p, e.height);
    assert e.hash in index ==> index[e.hash] == e;
    if e.height <= common {
      SharesBelow(s, p, common, e.height);
      var h :| h in index && index[h] == e;
    } else {
      assert !SharesAt(s, p, e.height);
    }
  }

  lemma EntryIsAncestor(s: seq<BlockIndex?>, p: BlockIndex, entries: seq<BlockIndex>, i: nat)
    requires IsLocator(s, p, entries) && i < |entries|
    ensures Linked(p) && IsAncestor(entries[i], p)
    ensures forall j | 0 <= j <= i :: entries[j].height >= entries[i].height
  {
  }

  lemma KnownIsHeld(s: seq<BlockIndex?>, index: map<Hash, BlockIndex>, entries: seq<BlockIndex>, i: nat)
    requires i < |entries|
    ensures Known(s, index, Hashes(entries), i) <==> entries[i].hash in index && Holds(s, index[entries[i].hash])
  {
  }

  // Reading another chain's locator finds its highest entry at or below the last common block.
  lemma ForkOfLocator(blocks: set<BlockIndex>, s: seq<BlockIndex?>, index: map<Hash, BlockIndex>,
                      s': seq<BlockIndex?>, p: BlockIndex, entries: seq<BlockIndex>, common: nat,
                      r: BlockIndex?)
    requires Tree(blocks) && index.Values <= blocks && (forall h <- index :: index[h].hash == h)
    requires IsPath(s) && (forall i | 0 <= i < |s| :: s[i] in index.Values)
    requires p in blocks && IsLocator(s', p, entries)
    requires SharesAt(s, p, common) && forall h | h > common :: !SharesAt(s, p, h)
    requires IsFork(s, index, Hashes(entries), r)
    ensures r in entries && r.height <= common
    ensures forall e <- entries | e.height <= common :: e.height <= r.height
  {
    hide Linked, Ancestor, IsPath, SharesAt, Tree, Known, Descends;
    var locator := Hashes(entries);
    forall i: nat | i < |entries|
      ensures Known(s, index, locator, i) <==> entries[i].height <= common
      ensures Known(s, index, locator, i) ==> locator[i] in index && index[locator[i]] == entries[i]
    {
      EntryIsAncestor(s', p, entries, i);
      KnownUpToFork(blocks, s, index, p, common, entries[i]);
      assert Known(s, index, locator, i) <==> entries[i].hash in index && Holds(s, index[entries[i].hash]) by {
        KnownIsHeld(s, index, entries, i);
      }
    }
    assert Known(s, index, locator, |entries| - 1);
    var i: nat :| i < |entries| && Known(s, index, locator, i) && r == index[locator[i]]
                  && forall j: nat | j < i :: !Known(s, index, locator, j);
    forall e <- entries | e.height <= common
      ensures e.height <= r.height
    {
      var j: nat :| j < |entries| && entries[j] == e;
      assert Known(s, index, locator, j);
      EntryIsAncestor(s', p, entries, j);
    }
  }

  class Chain {
    var vChain: seq<BlockIndex?>

    // Slot i holds the tip's ancestor at height i.
    ghost predicate Valid()
      reads this
    {
      IsPath(vChain)
    }

    constructor ()
      ensures Valid() && vChain == []
    {
      vChain := [];
    }

    function Genesis(): BlockIndex?
      reads this
    {
      if |vChain| > 0 then vChain[0] else null
    }

    function Height(): int
      reads this
    {
      |vChain| - 1
    }

    function Tip(): (tip: BlockIndex?)
      reads this
      ensures Valid() && tip != null ==> Linked(tip)
    {
      if |vChain| > 0 then vChain[Height()] else null
    }

    // operator[]
    function At(height: int): BlockIndex?
      reads this
    {
      if height < 0 || height >= |vChain| then null else vChain[height]
    }

    predicate Contains(b: BlockIndex)
      reads this
    {
      At(b.height) == b
    }

    function Next(b: BlockIndex): BlockIndex?
      reads this
    {
      if Contains(b) then At(b.height + 1) else null
    }

    // A chain contains exactly the blocks on the way back from its tip.
    lemma ContainsIsAncestor(b: BlockIndex)
      requires Valid()
      ensures Contains(b) <==> Tip() != null && IsAncestor(b, Tip())
    {
    }

    // The block after b on the chain is the one whose parent is b; only the tip has none.
    lemma NextIsChild(b: BlockIndex)
      requires Valid()
      ensures Next(b) != null <==> Contains(b) && b != Tip()
      ensures Next(b) != null ==> Next(b).pprev == b && Contains(Next(b))
    {
      if Next(b) != null {
        SlotParent(vChain, b.height + 1);
      }
    }

    // CChain::SetTip: it overwrites slots from the new tip downwards and stops at the first one that
    // already holds the right block.
    method SetTip(p: BlockIndex?) returns (fork: BlockIndex?)
      requires Valid()
      requires p != null ==> Linked(p)
      modifies this
      ensures Valid() && Tip() == p
      ensures p == null ==> fork == null
      // The result is the highest block of the new chain that the old chain had.
      ensures p != null ==>
                if fork == null then forall h :: !SharesAt(old(vChain), p, h)
                else && Holds(old(vChain), fork) && IsAncestor(fork, p)
                     && forall h | h > fork.height :: !SharesAt(old(vChain), p, h)
    {
      if p == null {
        vChain := [];
        return null;
      }
      hide Linked, Ancestor, IsPath;
      ghost var before := vChain;
      if |vChain| > p.height {
        vChain := vChain[..p.height + 1];
      } else {
        vChain := vChain + seq(p.height + 1 - |vChain|, _ => null);
      }
      var index: BlockIndex? := p;
      ghost var k := p.height;
      while index != null && vChain[index.height] != index
        invariant -1 <= k <= p.height && |vChain| == p.height + 1
        invariant if index == null then k == -1 else k >= 0 && index == Ancestor(p, k)
        invariant forall i | 0 <= i <= k :: vChain[i] == if i < |before| then before[i] else null
        invariant forall i | k < i <= p.height :: vChain[i] == Ancestor(p, i) && !SharesAt(before, p, i)
        decreases k
      {
        vChain := vChain[index.height := index];
        AncestorParent(p, k);
        index, k := index.pprev, k - 1;
      }
      if index != null {
        assert SharesAt(before, p, k);
      }
      OverwrittenPath(before, vChain, p, k);
      return index;
    }

    // CChain::GetLocator. The step is a 32-bit integer in the source; the assertion on it shows that
    // it cannot overflow for heights up to 2^30. Nothing is left of the source's last test, whether the
    // block is still above the wanted height: the two walks have made it false.
    method GetLocator(start: BlockIndex?) returns (have: seq<Hash>)
      requires Valid()
      requires var p := if start == null then Tip() else start;
               p != null ==> Linked(p) && SkipsBuilt(p) && (p.height > 0 ==> SharesAt(vChain, p, 0))
      ensures var p := if start == null then Tip() else start;
              if p == null then have == []
              else && (exists entries ::
                         have == Hashes(entries) && IsLocator(vChain, p, entries) && IsSpaced(vChain, p, entries))
                   && (|have| > 12 ==> Pow2(|have| - 12) < p.height)
    {
      hide Linked, Ancestor, IsPath, OneBits, SkipsBuilt, Descends, Hashes, StepAfter, DroppedAfter, Pow2, IsStepBack,
           IsSpaced;
      ghost var entries: seq<BlockIndex> := [];
      have := [];
      var step := 1;
      var index := start;
      if index == null {
        index := Tip();
      }
      ghost var p := index;
      NothingListed(vChain, p);
      while index != null
        invariant have == Hashes(entries) && step == StepAfter(|entries|)
        invariant index == null <==> p == null
        invariant index == null ==> entries == []
        invariant index != null ==> Linked(index) && IsAncestor(index, p) && Descends(vChain, p, entries)
        invariant if entries == [] then index == p
                  else && index.height < entries[|entries| - 1].height && Holds(vChain, index)
                       && IsStepBack(vChain, p, entries[|entries| - 1], StepAfter(|entries| - 1), index)
        invariant p != null ==> Linked(p) && IsSpaced(vChain, p, entries)
        invariant index != null && index.height > 0 ==> p.height >= index.height + DroppedAfter(|entries|)
        invariant |entries| >= 12 ==> p.height > DroppedAfter(|entries| - 1)
        decreases if index == null then 0 else index.height + 1
      {
        ghost var n := |entries|;
        StepsDouble(n);
        if n > 0 {
          StepsDouble(n - 1);
        }
        HashesGrow(entries, index);
        DescendsFurther(vChain, p, entries, index);
        SpacedFurther(vChain, p, entries, index);
        have, entries := have + [index.hash], entries + [index];
        if index.height == 0 {
          break;
        }
        var height := if index.height - step > 0 then index.height - step else 0;
        SkipsBuiltBelow(p, index.height);
        var a, _ := GetAncestor(index, height);
        AncestorOfAncestor(p, index.height, height);
        index := a;
        while !Contains(index)
          invariant index != null && Linked(index) && index.height <= height && IsAncestor(index, p)
          invariant forall h | index.height < h <= height :: !SharesAt(vChain, p, h)
          decreases index.height
        {
          assert SharesAt(vChain, p, 0);
          AncestorParent(p, index.height);
          index := index.pprev;
        }
        StepBackIs(vChain, p, entries[n], step, index);
        if |have| > 10 {
          step := step * 2;
        }
        assert step <= 2 * p.height;
      }
    }

    // CChain::FindFork
    method FindFork(index: map<Hash, BlockIndex>, locator: seq<Hash>) returns (r: BlockIndex?)
      ensures IsFork(vChain, index, locator, r)
      ensures (forall h <- locator :: h in index ==> !Contains(index[h])) ==>
                r == if vChain == [] then null else vChain[0]
    {
      for i := 0 to |locator|
        invariant forall j: nat | j < i :: !Known(vChain, index, locator, j)
      {
        if locator[i] in index {
          var b := index[locator[i]];
          if Contains(b) {
            assert Known(vChain, index, locator, i);
            return b;
          }
        }
      }
      return Genesis();
    }
  }
}
