// When the loop of FindMostWorkChain (src/main.cpp) ends, from whatever candidates and flags. As long as exactly
// the unflagged blocks are candidates it does; after a failing write of a flag it may not.

module SearchPasses {
  import opened BlockTree
  import opened BlockChain
  import opened SelectionRules
  import opened Activation
  import opened ChainEvents

  datatype Search = Search(candidates: set<BlockIndex>, failed: set<BlockIndex>)

  // The height at which the walk from b at height h down to the active chain meets a flagged block, or -1.
  ghost function FirstFlag(active: Path, failed: set<BlockIndex>, b: BlockIndex, h: int): (f: int)
    requires Linked(b) && h <= b.height
    ensures -1 <= f && (f <= h || f == -1)
    ensures f >= 0 ==> Ancestor(b, f) in failed && !SharesAt(active, b, f)
    ensures f >= 0 ==> forall k | f <= k <= h :: !SharesAt(active, b, k) && (k > f ==> Ancestor(b, k) !in failed)
    decreases h + 1
  {
    if h < 0 || SharesAt(active, b, h) then -1
    else if Ancestor(b, h) in failed then h
    else FirstFlag(active, failed, b, h - 1)
  }

  // A pass of the loop that finds a flagged block on the way of its best candidate: the blocks above are flagged
  // and dropped.
  ghost function Pass(active: Path, s: Search, best: BlockIndex): Search
    requires Linked(best) && FirstFlag(active, s.failed, best, best.height) >= 0
  {
    var above := Above(best, FirstFlag(active, s.failed, best, best.height));
    Search(s.candidates - above, s.failed + above)
  }

  // The loop ends after at most n such passes.
  ghost predicate EndsWithin(active: Path, s: Search, n: nat)
    decreases n
  {
    s.candidates == {}
    || exists best <- s.candidates ::
         && IsGreatest(best, s.candidates) && Linked(best)
         && (FirstFlag(active, s.failed, best, best.height) < 0
             || (n > 0 && EndsWithin(active, Pass(active, s, best), n - 1)))
  }

  ghost predicate StuckAt(active: Path, s: Search, f: BlockIndex) {
    && f in s.failed && !Holds(active, f)
    && forall c <- s.candidates | Clean(active, s.failed, c) :: Less(c, f)
  }

  // A flagged candidate off the active chain is better than every candidate with a clean way back.
  ghost predicate Stuck(active: Path, s: Search) {
    exists f <- s.candidates :: StuckAt(active, s, f)
  }

  lemma {:induction false} NoFlagMeans(active: Path, failed: set<BlockIndex>, b: BlockIndex, h: int)
    requires IsPath(active) && Linked(b) && h <= b.height
    ensures FirstFlag(active, failed, b, h) < 0 <==>
              forall k | 0 <= k <= h && !SharesAt(active, b, k) :: Ancestor(b, k) !in failed
    decreases h + 1
  {
    hide Linked, Ancestor, IsPath, SharesAt;
    if h >= 0 {
      if SharesAt(active, b, h) {
        forall k | 0 <= k <= h
          ensures SharesAt(active, b, k)
        {
          SharesBelow(active, b, h, k);
        }
      } else {
        NoFlagMeans(active, failed, b, h - 1);
      }
    }
  }

  lemma NoFlagIsClean(active: Path, failed: set<BlockIndex>, b: BlockIndex)
    requires IsPath(active) && Linked(b)
    ensures FirstFlag(active, failed, b, b.height) < 0 <==> Clean(active, failed, b)
  {
    NoFlagMeans(active, failed, b, b.height);
  }

  lemma FlaggedIsNotClean(active: Path, failed: set<BlockIndex>, b: BlockIndex)
    requires Linked(b) && b in failed && !Holds(active, b)
    ensures !Clean(active, failed, b)
  {
    assert Ancestor(b, b.height) == b && !SharesAt(active, b, b.height);
  }

  // A block above the first flag is unflagged, and not clean.
  lemma AboveFirstFlag(active: Path, failed: set<BlockIndex>, best: BlockIndex, c: BlockIndex)
    requires IsPath(active) && Linked(best) && FirstFlag(active, failed, best, best.height) >= 0
    requires c in Above(best, FirstFlag(active, failed, best, best.height))
    ensures c !in failed && Linked(c)
    ensures FirstFlag(active, failed, best, best.height) < c.height
    ensures Ancestor(c, FirstFlag(active, failed, best, best.height)) in failed
    ensures !SharesAt(active, c, FirstFlag(active, failed, best, best.height))
  {
    var f := FirstFlag(active, failed, best, best.height);
    var k :| f < k <= best.height && c == Ancestor(best, k);
    AncestorOfAncestor(best, k, f);
  }

  // A pass keeps exactly the candidates with a clean way back clean.
  lemma PassKeepsClean(active: Path, s: Search, best: BlockIndex, c: BlockIndex)
    requires IsPath(active) && Linked(best) && FirstFlag(active, s.failed, best, best.height) >= 0
    requires c in s.candidates
    ensures var t := Pass(active, s, best);
            c in t.candidates && Clean(active, t.failed, c) <==> Clean(active, s.failed, c)
  {
    hide Linked, Ancestor, IsPath, FirstFlag, Above;
    var f := FirstFlag(active, s.failed, best, best.height);
    if Clean(active, s.failed, c) {
      if c in Above(best, f) {
        AboveFirstFlag(active, s.failed, best, c);
        assert false;
      }
      forall k | 0 <= k <= c.height && !SharesAt(active, c, k)
        ensures Ancestor(c, k) !in Above(best, f)
      {
        var d := Ancestor(c, k);
        if d in Above(best, f) {
          AboveFirstFlag(active, s.failed, best, d);
          AncestorOfAncestor(c, k, f);
          assert false;
        }
      }
    }
  }

  lemma StaysStuck(active: Path, s: Search, best: BlockIndex, f: BlockIndex)
    requires IsPath(active) && Linked(best) && FirstFlag(active, s.failed, best, best.height) >= 0
    requires f in s.candidates
    ensures var t := Pass(active, s, best);
            f in t.candidates && StuckAt(active, t, f) <==> StuckAt(active, s, f)
  {
    hide Linked, Ancestor, IsPath, FirstFlag, Above, Clean, Holds;
    var t := Pass(active, s, best);
    var above := Above(best, FirstFlag(active, s.failed, best, best.height));
    if f in above {
      AboveFirstFlag(active, s.failed, best, f);
    }
    forall c <- s.candidates
      ensures c in t.candidates && Clean(active, t.failed, c) <==> Clean(active, s.failed, c)
    {
      PassKeepsClean(active, s, best, c);
    }
  }

  // Once stuck the loop never ends.
  lemma {:induction false} StuckGoesOn(blocks: set<BlockIndex>, active: Path, s: Search, f: BlockIndex, n: nat)
    requires Tree(blocks) && s.candidates <= blocks && IsPath(active)
    requires f in s.candidates && StuckAt(active, s, f)
    ensures !EndsWithin(active, s, n)
    decreases n
  {
    hide Linked, Ancestor, IsPath, FirstFlag, Above, Clean, Tree, Holds;
    forall best <- s.candidates | IsGreatest(best, s.candidates) && Linked(best)
      ensures FirstFlag(active, s.failed, best, best.height) >= 0
      ensures n > 0 ==> !EndsWithin(active, Pass(active, s, best), n - 1)
    {
      NoFlagIsClean(active, s.failed, best);
      InTree(blocks, f);
      FlaggedIsNotClean(active, s.failed, f);
      assert FirstFlag(active, s.failed, best, best.height) >= 0;
      if n > 0 {
        StaysStuck(active, s, best, f);
        StuckGoesOn(blocks, active, Pass(active, s, best), f, n - 1);
      }
    }
  }

  lemma HeldIsClean(active: Path, failed: set<BlockIndex>, b: BlockIndex)
    requires IsPath(active) && Linked(b) && Holds(active, b)
    ensures Clean(active, failed, b)
  {
    assert SharesAt(active, b, b.height);
    forall k | 0 <= k <= b.height
      ensures SharesAt(active, b, k)
    {
      SharesBelow(active, b, b.height, k);
    }
  }

  // The best candidate of a loop that is not stuck is unflagged, or its way back is clean.
  lemma BestIsUnflagged(active: Path, s: Search, best: BlockIndex)
    requires IsPath(active) && Linked(best) && IsGreatest(best, s.candidates) && !Stuck(active, s)
    requires !Clean(active, s.failed, best)
    ensures best !in s.failed
  {
    hide Linked, Ancestor, IsPath, Clean;
    if Holds(active, best) {
      HeldIsClean(active, s.failed, best);
    } else {
      assert StuckAt(active, s, best) <==> best in s.failed;
    }
  }

  lemma NotStuckLater(active: Path, s: Search, best: BlockIndex)
    requires IsPath(active) && Linked(best) && FirstFlag(active, s.failed, best, best.height) >= 0
    ensures Stuck(active, Pass(active, s, best)) ==> Stuck(active, s)
  {
    hide Linked, Ancestor, IsPath, FirstFlag, Above, StuckAt;
    var t := Pass(active, s, best);
    if Stuck(active, t) {
      var f :| f in t.candidates && StuckAt(active, t, f);
      StaysStuck(active, s, best, f);
    }
  }

  lemma BestIsDropped(active: Path, s: Search, best: BlockIndex)
    requires Linked(best) && FirstFlag(active, s.failed, best, best.height) >= 0
    requires best in s.candidates && best !in s.failed
    ensures var t := Pass(active, s, best);
            best !in t.candidates && |t.candidates - t.failed| < |s.candidates - s.failed|
  {
    var t := Pass(active, s, best);
    assert Ancestor(best, best.height) == best;
    InAbove(best, FirstFlag(active, s.failed, best, best.height));
    Smaller(t.candidates - t.failed, s.candidates - s.failed, best);
  }

  // A loop that is not stuck ends: every pass drops an unflagged candidate.
  lemma {:induction false} NotStuckEnds(blocks: set<BlockIndex>, active: Path, s: Search) returns (n: nat)
    requires Tree(blocks) && s.candidates <= blocks && IsPath(active) && !Stuck(active, s)
    ensures EndsWithin(active, s, n)
    decreases |s.candidates - s.failed|
  {
    hide Linked, Ancestor, IsPath, FirstFlag, Clean, Tree, Stuck, Above;
    n := 0;
    if s.candidates != {} {
      var best := GreatestExists(blocks, s.candidates);
      InTree(blocks, best);
      NoFlagIsClean(active, s.failed, best);
      if FirstFlag(active, s.failed, best, best.height) >= 0 {
        BestIsUnflagged(active, s, best);
        NotStuckLater(active, s, best);
        BestIsDropped(active, s, best);
        n := NotStuckEnds(blocks, active, Pass(active, s, best));
        n := n + 1;
      }
    }
  }

  // The loop ends exactly if no flagged candidate off the active chain is better than every candidate with a
  // clean way back.
  lemma SearchEnds(blocks: set<BlockIndex>, active: Path, s: Search)
    requires Tree(blocks) && s.candidates <= blocks && IsPath(active)
    ensures (exists n: nat :: EndsWithin(active, s, n)) <==> !Stuck(active, s)
  {
    hide Tree, IsPath, EndsWithin, StuckAt;
    if Stuck(active, s) {
      var f :| f in s.candidates && StuckAt(active, s, f);
      forall n: nat
        ensures !EndsWithin(active, s, n)
      {
        StuckGoesOn(blocks, active, s, f, n);
      }
    } else {
      var n := NotStuckEnds(blocks, active, s);
    }
  }

  // As long as no candidate is flagged, it always ends.
  lemma UnflaggedIsNotStuck(active: Path, s: Search)
    requires s.candidates !! s.failed
    ensures !Stuck(active, s)
  {
  }

  // ---- What the loop flags --------------------------------------------------------------------------

  // The blocks on c's way back above its first flagged one, if there is one.
  ghost function Sweep(active: Path, failed: set<BlockIndex>, c: BlockIndex): set<BlockIndex>
    requires Linked(c)
  {
    if FirstFlag(active, failed, c, c.height) < 0 then {} else Above(c, FirstFlag(active, failed, c, c.height))
  }

  ghost predicate Beats(d: BlockIndex, candidates: set<BlockIndex>) {
    forall c <- candidates :: Less(c, d)
  }

  // From s0 to s exactly the sweeps of the dropped candidates were flagged, by the flags of s0; and each block lies in
  // the sweep of a candidate that beats all that are left.
  ghost predicate SweptBy(active: Path, s0: Search, s: Search) {
    && s.candidates <= s0.candidates && s0.failed <= s.failed
    && (forall x <- s.failed - s0.failed ::
          exists d <- s0.candidates - s.candidates ::
            Linked(d) && x in Sweep(active, s0.failed, d) && Beats(d, s.candidates))
    && (forall d <- s0.candidates - s.candidates :: Linked(d) && Sweep(active, s0.failed, d) <= s.failed)
  }

  lemma NothingSwept(active: Path, s: Search)
    ensures SweptBy(active, s, s)
  {
  }

  // The first flag is the highest one that is not shared.
  lemma {:induction false} FlagIsHighest(active: Path, failed: set<BlockIndex>, c: BlockIndex, h: nat, k: nat)
    requires IsPath(active) && Linked(c) && k <= h <= c.height && Ancestor(c, k) in failed && !SharesAt(active, c, k)
    ensures FirstFlag(active, failed, c, h) >= k
    decreases h
  {
    hide Linked, Ancestor, IsPath, SharesAt;
    if SharesAt(active, c, h) {
      SharesBelow(active, c, h, k);
    } else if h > k && Ancestor(c, h) !in failed {
      FlagIsHighest(active, failed, c, h - 1, k);
    }
  }

  // Where the walk from c passes d, it goes on as the one from d.
  lemma {:induction false} FlagOfAncestor(active: Path, failed: set<BlockIndex>, c: BlockIndex, k: nat, h: int)
    requires Linked(c) && h <= k <= c.height
    ensures Linked(Ancestor(c, k)) && Ancestor(c, k).height == k
    ensures FirstFlag(active, failed, c, h) == FirstFlag(active, failed, Ancestor(c, k), h)
    decreases h + 1
  {
    hide Linked, Ancestor;
    AncestorOfAncestor(c, k, k);
    if h >= 0 {
      AncestorOfAncestor(c, k, h);
      FlagOfAncestor(active, failed, c, k, h - 1);
    }
  }

  lemma {:induction false} FlagFurtherDown(active: Path, failed: set<BlockIndex>, c: BlockIndex, h: nat, k: nat)
    requires Linked(c) && k <= h <= c.height && 0 <= FirstFlag(active, failed, c, h) <= k
    ensures FirstFlag(active, failed, c, k) == FirstFlag(active, failed, c, h)
    decreases h
  {
    if k < h {
      FlagFurtherDown(active, failed, c, h - 1, k);
    }
  }

  // So the block at height k has the same first flag, and sweeps what c sweeps up to there.
  lemma SweepBelow(active: Path, failed: set<BlockIndex>, c: BlockIndex, k: nat)
    requires Linked(c) && 0 <= FirstFlag(active, failed, c, c.height) <= k <= c.height
    ensures var d, f := Ancestor(c, k), FirstFlag(active, failed, c, c.height);
            && Linked(d) && d.height == k && FirstFlag(active, failed, d, k) == f
            && Sweep(active, failed, d) == Above(d, f)
            && (forall j | f < j <= k ::
                  && Ancestor(d, j) == Ancestor(c, j)
                  && Ancestor(c, j) in Sweep(active, failed, d) && Ancestor(c, j) in Sweep(active, failed, c))
  {
    hide Linked, Ancestor, FirstFlag;
    var d, f := Ancestor(c, k), FirstFlag(active, failed, c, c.height);
    FlagFurtherDown(active, failed, c, c.height, k);
    FlagOfAncestor(active, failed, c, k, k);
    forall j | f < j <= k
      ensures Ancestor(d, j) == Ancestor(c, j)
    {
      AncestorOfAncestor(c, k, j);
    }
  }

  // A block that the loop has flagged lies in the sweep of a dropped candidate, which has the same first flag.
  lemma FlaggedByLoop(active: Path, s0: Search, s: Search, e: BlockIndex) returns (d: BlockIndex)
    requires SweptBy(active, s0, s) && e in s.failed - s0.failed
    ensures d in s0.candidates - s.candidates && Linked(d) && Linked(e) && e.height <= d.height
    ensures e == Ancestor(d, e.height) && e in Sweep(active, s0.failed, d)
    ensures var f := FirstFlag(active, s0.failed, d, d.height);
            0 <= f < e.height && FirstFlag(active, s0.failed, e, e.height) == f
  {
    d :| d in s0.candidates - s.candidates && Linked(d) && e in Sweep(active, s0.failed, d);
    hide Linked, Ancestor, FirstFlag;
    var f := FirstFlag(active, s0.failed, d, d.height);
    var k :| f < k <= d.height && e == Ancestor(d, k);
    AncestorOfAncestor(d, k, k);
    SweepBelow(active, s0.failed, d, k);
  }

  lemma SweptFlags(active: Path, s0: Search, s: Search)
    requires SweptBy(active, s0, s)
    ensures s0.failed <= s.failed && s.candidates <= s0.candidates
  {
  }

  lemma DroppedIsSwept(active: Path, s0: Search, s: Search, d: BlockIndex)
    requires SweptBy(active, s0, s) && d in s0.candidates - s.candidates
    ensures Linked(d) && Sweep(active, s0.failed, d) <= s.failed
  {
  }

  // One pass: by the flags at the start the best candidate's sweep is flagged.
  lemma PassSweepsBest(blocks: set<BlockIndex>, active: Path, s0: Search, s: Search, best: BlockIndex)
    requires Tree(blocks) && best in blocks && IsPath(active) && SweptBy(active, s0, s)
    requires Linked(best) && FirstFlag(active, s.failed, best, best.height) >= 0
    ensures 0 <= FirstFlag(active, s0.failed, best, best.height) <= FirstFlag(active, s.failed, best, best.height)
    ensures Sweep(active, s0.failed, best) <= Pass(active, s, best).failed
    ensures Above(best, FirstFlag(active, s.failed, best, best.height)) <= Sweep(active, s0.failed, best)
  {
    hide Linked, Ancestor, FirstFlag, SweptBy, Tree, IsPath;
    var f0, f1 := FirstFlag(active, s0.failed, best, best.height), FirstFlag(active, s.failed, best, best.height);
    var e := Ancestor(best, f1);
    AncestorInTree(blocks, best, f1);
    InTree(blocks, e);
    AncestorOfAncestor(best, f1, f1);
    SweptFlags(active, s0, s);
    if e in s0.failed {
      FlagIsHighest(active, s0.failed, best, best.height, f1);
    } else {
      var d := FlaggedByLoop(active, s0, s, e);
      var f := FirstFlag(active, s0.failed, d, d.height);
      AncestorOfAncestor(best, f1, f);
      AncestorOfAncestor(d, f1, f);
      FlagIsHighest(active, s0.failed, best, best.height, f);
    }
    forall x <- Sweep(active, s0.failed, best)
      ensures x in Pass(active, s, best).failed
    {
      var j: nat :| f0 < j <= best.height && x == Ancestor(best, j);
      if j < f1 {
        var d := FlaggedByLoop(active, s0, s, e);
        SweepBelow(active, s0.failed, best, f1);
        SweepBelow(active, s0.failed, d, f1);
        DroppedIsSwept(active, s0, s, d);
      }
    }
  }

  lemma SweptIsTainted(active: Path, s0: Search, s: Search)
    requires SweptBy(active, s0, s)
    ensures s0.failed <= s.failed && forall x <- s.failed - s0.failed :: Tainted(active, s0.failed, x)
  {
    forall x <- s.failed - s0.failed
      ensures Tainted(active, s0.failed, x)
    {
      var d := FlaggedByLoop(active, s0, s, x);
    }
  }

  lemma SweepOfDropped(active: Path, failed: set<BlockIndex>, best: BlockIndex, c: BlockIndex, f1: nat)
    requires Linked(best) && c in Above(best, f1) && 0 <= FirstFlag(active, failed, best, best.height) <= f1
    ensures Linked(c) && Sweep(active, failed, c) <= Sweep(active, failed, best)
  {
    hide Linked, Ancestor, FirstFlag;
    var k: nat :| f1 < k <= best.height && c == Ancestor(best, k);
    SweepBelow(active, failed, best, k);
  }

  lemma PassSweeps(blocks: set<BlockIndex>, active: Path, s0: Search, s: Search, best: BlockIndex)
    requires Tree(blocks) && s0.candidates <= blocks && IsPath(active) && SweptBy(active, s0, s)
    requires Linked(best) && IsGreatest(best, s.candidates) && best !in s.failed
    requires FirstFlag(active, s.failed, best, best.height) >= 0
    ensures SweptBy(active, s0, Pass(active, s, best))
  {
    hide Linked, Ancestor, FirstFlag, Tree, IsPath, Sweep, Above;
    var t := Pass(active, s, best);
    var f0, f1 := FirstFlag(active, s0.failed, best, best.height), FirstFlag(active, s.failed, best, best.height);
    PassSweepsBest(blocks, active, s0, s, best);
    BestIsDropped(active, s, best);
    assert Beats(best, t.candidates);
    forall x <- t.failed - s0.failed
      ensures exists d <- s0.candidates - t.candidates ::
                Linked(d) && x in Sweep(active, s0.failed, d) && Beats(d, t.candidates)
    {
      if x in s.failed {
        assert x in s.failed - s0.failed;
        var d :| d in s0.candidates - s.candidates && Linked(d) && x in Sweep(active, s0.failed, d)
                 && Beats(d, s.candidates);
      }
    }
    forall c <- s0.candidates - t.candidates
      ensures Linked(c) && Sweep(active, s0.failed, c) <= t.failed
    {
      if c in s.candidates {
        SweepOfDropped(active, s0.failed, best, c, f1);
      }
    }
  }

  // Exactly what a search that ends with its best candidate has flagged: the sweeps of all better candidates.
  lemma SearchFlagsExactly(active: Path, s: Search, t: Search, best: BlockIndex, x: BlockIndex)
    requires SweptBy(active, s, t) && (forall c <- s.candidates :: Linked(c)) && IsGreatest(best, t.candidates)
    ensures x in t.failed <==>
              || x in s.failed
              || exists c <- s.candidates :: Less(best, c) && x in Sweep(active, s.failed, c)
  {
    hide Linked, Sweep;
    if x in t.failed && x !in s.failed {
      assert x in t.failed - s.failed;
      var c :| c in s.candidates - t.candidates && Linked(c) && x in Sweep(active, s.failed, c)
               && Beats(c, t.candidates);
      assert Less(best, c);
    }
    forall c <- s.candidates | Less(best, c)
      ensures c in s.candidates - t.candidates
    {
    }
  }

  // The flagged upper end of chainMostWork, which the search takes off first.
  ghost function FlaggedEnd(m: Path, failed: set<BlockIndex>): set<BlockIndex> {
    From(m, |Trimmed(m, failed)|)
  }

  lemma EndIsFlagged(m: Path, failed: set<BlockIndex>)
    ensures FlaggedEnd(m, failed) <= failed
  {
  }

  // After InvalidateBlock failed to write a candidate p off the active chain, the next search ends exactly if it
  // takes p off with the end of chainMostWork, or a candidate with a clean way back is better than p.
  lemma FailedWriteMayBlockSearch(env: Environment, s: State, p: BlockIndex, t: State)
    requires WellFormed(s) && InvalidateBreaks(env, s, p, t) && p in s.Candidates() && !Holds(s.active, p)
    ensures var search := Search(s.Candidates() - FlaggedEnd(t.mostWork, t.failed), t.failed);
            (exists n: nat :: EndsWithin(t.active, search, n)) <==>
              || p in FlaggedEnd(t.mostWork, t.failed)
              || exists c <- s.Candidates() :: Clean(t.active, t.failed, c) && !Less(c, p)
  {
    hide Tree, IsPath, EndsWithin, Clean, Linked, Ancestor, FlaggedEnd;
    var search := Search(s.Candidates() - FlaggedEnd(t.mostWork, t.failed), t.failed);
    SearchEnds(s.Blocks(), t.active, search);
    EndIsFlagged(t.mostWork, t.failed);
    InTree(s.Blocks(), p);
    FlaggedIsNotClean(t.active, t.failed, p);
    if p !in FlaggedEnd(t.mostWork, t.failed) {
      assert p in search.candidates;
      assert Stuck(t.active, search) <==> StuckAt(t.active, search, p);
    }
  }

  // The root is active, b on top of it has not been tried, and invalidating b fails to write it.
  lemma SearchNeverEnds(env: Environment, root: BlockIndex, b: BlockIndex)
    requires root.pprev == null && root.height == 0 && b.pprev == root && b.height == 1
    requires root.hash != b.hash && root.address != b.address && !env.written(2)
    ensures var s := State(map[root.hash := root, b.hash := b], [root], [root], {}, null, 1, 3, 2);
            var t := s.(failed := {b}, writes := 3);
            var search := Search(s.Candidates() - FlaggedEnd(t.mostWork, t.failed), t.failed);
            && WellFormed(s) && b in s.Candidates() && InvalidateBreaks(env, s, b, t)
            && forall n: nat :: !EndsWithin(t.active, search, n)
  {
    hide EndsWithin, Clean;
    var s := State(map[root.hash := root, b.hash := b], [root], [root], {}, null, 1, 3, 2);
    var t := s.(failed := {b}, writes := 3);
    assert s.index[root.hash] == root && s.index[b.hash] == b && s.Blocks() == {root, b};
    assert s.active[0] == root;
    TrimmedIsAll(t.mostWork, t.failed);
    FlaggedIsNotClean(t.active, t.failed, b);
    FailedWriteMayBlockSearch(env, s, b, t);
  }
}
