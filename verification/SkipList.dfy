// The skip pointers of the block tree (src/main.cpp, GetSkipHeight to BuildSkip): a faster form of the
// parent walk.

module SkipList {
  import opened Bits
  import opened BlockTree

  // n & (n - 1); on 0 the source computes 0 & -1, which is 0.
  function InvertLowestOne(n: nat): (m: nat)
    ensures m <= n
  {
    if n == 0 then 0 else BitAnd(n, n - 1)
  }

  // The height that the skip pointer of a block leads to.
  function GetSkipHeight(height: nat): nat {
    if height < 2 then 0
    else if BitAnd(height, 1) != 0 then InvertLowestOne(InvertLowestOne(height - 1)) + 1
    else InvertLowestOne(height)
  }

  lemma {:induction false} InvertLowestOneStep(n: nat)
    ensures InvertLowestOne(2 * n) == 2 * InvertLowestOne(n)
    ensures InvertLowestOne(2 * n + 1) == 2 * n
  {
    BitAndDigit(n, 1, n, 0);
    BitAndSelf(n);
    if n > 0 {
      BitAndDigit(n, 0, n - 1, 1);
    }
    hide BitAnd;
  }

  lemma {:induction false} OneBitsDoubled(n: nat)
    ensures OneBits(2 * n) == OneBits(n)
    ensures OneBits(2 * n + 1) == OneBits(n) + 1
  {
  }

  lemma {:induction false} InvertLowestOneDropsABit(n: nat)
    requires n > 0
    ensures InvertLowestOne(n) < n
    ensures OneBits(InvertLowestOne(n)) == OneBits(n) - 1
  {
    hide BitAnd, InvertLowestOne, OneBits;
    var k := n / 2;
    InvertLowestOneStep(k);
    OneBitsDoubled(k);
    if n == 2 * k {
      InvertLowestOneDropsABit(k);
      OneBitsDoubled(InvertLowestOne(k));
    } else {
      assert n == 2 * k + 1;
    }
  }

  // Any height strictly below its own keeps the walk moving towards the root.
  lemma SkipHeightDecreases(height: nat)
    requires height > 0
    ensures GetSkipHeight(height) < height
  {
  }

  // Every block on the way from b to its root carries the skip pointer that BuildSkip gives it.
  ghost predicate SkipsBuilt(b: BlockIndex)
    requires Linked(b)
    decreases b.height
  {
    b.pprev != null ==>
      && GetSkipHeight(b.height) < b.height
      && b.pskip == Ancestor(b, GetSkipHeight(b.height))
      && SkipsBuilt(b.pprev)
  }

  lemma {:induction false} SkipsBuiltBelow(b: BlockIndex, h: nat)
    requires Linked(b) && SkipsBuilt(b) && h <= b.height
    ensures SkipsBuilt(Ancestor(b, h))
    decreases b.height
  {
    if h < b.height {
      SkipsBuiltBelow(b.pprev, h);
    }
  }

  // Whether a walk from height h to a lower target takes the skip pointer or the parent.
  predicate FollowsSkip(h: nat, target: nat)
    requires target < h
  {
    var skip, skipPrev := GetSkipHeight(h), GetSkipHeight(h - 1);
    skip == target || (skip > target && !(skipPrev < skip - 2 && skipPrev >= target))
  }

  // A bound on the iterations of a walk to genesis: on odd heights every skip clears two bits.
  function WalkBound(h: nat): nat {
    if h == 0 then 0
    else if h % 2 == 1 then 1 + (OneBits(h / 2) + 1) / 2
    else 1 + OneBits(h / 2)
  }

  lemma {:induction false} SkipHeights(k: nat)
    requires k > 0
    ensures GetSkipHeight(2 * k) == 2 * InvertLowestOne(k)
    ensures GetSkipHeight(2 * k + 1) == 2 * InvertLowestOne(InvertLowestOne(k)) + 1
  {
    InvertLowestOneStep(k);
    InvertLowestOneStep(InvertLowestOne(k));
    assert BitAnd(2 * k, 1) == 0 && BitAnd(2 * k + 1, 1) == 1;
  }

  lemma {:induction false} OneBitsNearFour(n: nat)
    ensures OneBits(4 * n + 1) == OneBits(4 * n + 2) == OneBits(n) + 1
  {
    hide OneBits;
    var m := 2 * n;
    OneBitsDoubled(n);
    OneBitsDoubled(m);
    OneBitsDoubled(m + 1);
    assert 2 * m + 1 == 4 * n + 1 && 2 * (m + 1) == 4 * n + 2;
  }

  lemma {:induction false} OneBitsBelow(n: nat, r: nat)
    requires 1 <= r <= 3
    ensures OneBits(4 * n + r - 1) <= OneBits(4 * n + r)
  {
    hide OneBits;
    if r == 2 {
      OneBitsNearFour(n);
    } else {
      OneBitsDoubled(2 * n + r / 2);
    }
  }

  lemma {:induction false} InvertLowestOneOfFours(n: nat)
    ensures InvertLowestOne(4 * n) == 4 * InvertLowestOne(n)
    ensures InvertLowestOne(InvertLowestOne(4 * n + 3)) == 4 * n
  {
    hide BitAnd, InvertLowestOne, OneBits;
    var m := 2 * n;
    InvertLowestOneStep(m);
    InvertLowestOneStep(m + 1);
    InvertLowestOneStep(n);
  }

  // A height divisible by eight always follows its skip pointer.
  lemma {:induction false} EightFollowsSkip(n: nat)
    requires n > 0
    ensures FollowsSkip(2 * (4 * n), 0)
  {
    hide BitAnd, InvertLowestOne, OneBits;
    var once, twice := InvertLowestOne(4 * n), InvertLowestOne(InvertLowestOne(4 * n - 1));
    assert once <= 4 * n - 4 && twice == 4 * n - 4 by {
      InvertLowestOneOfFours(n);
      InvertLowestOneOfFours(n - 1);
      InvertLowestOneDropsABit(n);
    }
    SkipHeights(4 * n);
    SkipHeights(4 * n - 1);
  }

  lemma {:induction false} OddStepLowersBound(k: nat)
    ensures FollowsSkip(2 * k + 1, 0)
    ensures WalkBound(GetSkipHeight(2 * k + 1)) < WalkBound(2 * k + 1)
  {
    hide BitAnd, InvertLowestOne, OneBits;
    if k > 0 {
      SkipHeights(k);
      InvertLowestOneDropsABit(k);
      var once := InvertLowestOne(k);
      if once > 0 {
        InvertLowestOneDropsABit(once);
      }
    }
  }

  lemma {:induction false} ParentIsBetter(k: nat)
    requires k > 0 && !FollowsSkip(2 * k, 0)
    ensures InvertLowestOne(k) > 0 && OneBits(k - 1) <= OneBits(k)
  {
    hide BitAnd, InvertLowestOne, OneBits;
    SkipHeights(k);
    var n, r := k / 4, k % 4;
    if r == 0 {
      EightFollowsSkip(n);
    }
    OneBitsBelow(n, r);
  }

  // From an even height the walk clears one bit, or goes on from the odd height below.
  lemma {:induction false} EvenStepLowersBound(k: nat)
    requires k > 0
    ensures FollowsSkip(2 * k, 0) ==> WalkBound(GetSkipHeight(2 * k)) < WalkBound(2 * k)
    ensures !FollowsSkip(2 * k, 0) ==> WalkBound(2 * k - 1) < WalkBound(2 * k)
  {
    hide BitAnd, InvertLowestOne, OneBits;
    InvertLowestOneDropsABit(k);
    if FollowsSkip(2 * k, 0) {
      SkipHeights(k);
    } else {
      ParentIsBetter(k);
    }
  }

  lemma StepLowersBound(h: nat)
    requires h > 0
    ensures FollowsSkip(h, 0) ==> WalkBound(GetSkipHeight(h)) < WalkBound(h)
    ensures !FollowsSkip(h, 0) ==> WalkBound(h - 1) < WalkBound(h)
  {
    hide GetSkipHeight, OneBits, WalkBound;
    if h % 2 == 1 {
      OddStepLowersBound(h / 2);
    } else {
      EvenStepLowersBound(h / 2);
    }
  }

  lemma WalkBoundIsSmall(h: nat)
    ensures WalkBound(h) <= 1 + OneBits(h)
  {
  }

  // CBlockIndex::GetAncestor
  method GetAncestor(b: BlockIndex, heightIn: int) returns (a: BlockIndex?, ghost steps: nat)
    requires Linked(b) && SkipsBuilt(b)
    ensures heightIn < 0 || heightIn > b.height ==> a == null
    ensures 0 <= heightIn <= b.height ==> a == Ancestor(b, heightIn)
    ensures heightIn == 0 ==> steps <= 1 + OneBits(b.height)
  {
    hide BitAnd, OneBits, GetSkipHeight, WalkBound;
    steps := 0;
    if heightIn > b.height || heightIn < 0 {
      return null, 0;
    }
    var walk, heightWalk := b, b.height;
    while heightWalk > heightIn
      invariant heightIn <= heightWalk <= b.height
      invariant walk == Ancestor(b, heightWalk)
      invariant heightIn == 0 ==> steps + WalkBound(heightWalk) <= WalkBound(b.height)
    {
      var heightSkip, heightSkipPrev := GetSkipHeight(heightWalk), GetSkipHeight(heightWalk - 1);
      SkipHeightDecreases(heightWalk);
      SkipsBuiltBelow(b, heightWalk);
      StepLowersBound(heightWalk);
      if heightSkip == heightIn
         || (heightSkip > heightIn && !(heightSkipPrev < heightSkip - 2 && heightSkipPrev >= heightIn)) {
        AncestorOfAncestor(b, heightWalk, heightSkip);
        walk, heightWalk := walk.pskip, heightSkip;
      } else {
        AncestorOfAncestor(b, heightWalk, heightWalk - 1);
        walk, heightWalk := walk.pprev, heightWalk - 1;
      }
      steps := steps + 1;
    }
    WalkBoundIsSmall(b.height);
    a := walk;
  }

  // CBlockIndex::BuildSkip, for a block about to be made on top of pprev.
  method BuildSkip(pprev: BlockIndex) returns (skip: BlockIndex)
    requires Linked(pprev) && SkipsBuilt(pprev)
    ensures GetSkipHeight(pprev.height + 1) <= pprev.height
    ensures skip == Ancestor(pprev, GetSkipHeight(pprev.height + 1))
  {
    SkipHeightDecreases(pprev.height + 1);
    var a, _ := GetAncestor(pprev, GetSkipHeight(pprev.height + 1));
    skip := a;
  }

  // A block made with the skip pointer from BuildSkip keeps the pointers right.
  lemma SkipsExtend(b: BlockIndex)
    requires b.pprev == null ==> b.height == 0
    requires b.pprev != null ==>
               && b.height == b.pprev.height + 1 && Linked(b.pprev) && SkipsBuilt(b.pprev)
               && GetSkipHeight(b.height) <= b.pprev.height
               && b.pskip == Ancestor(b.pprev, GetSkipHeight(b.height))
    ensures Linked(b) && SkipsBuilt(b)
  {
  }
}
