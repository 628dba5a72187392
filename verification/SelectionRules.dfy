// The notions that chain selection (src/main.cpp) is specified by, on plain values: paths, sets of
// flagged blocks, and the answers of the world outside the block tree.

module SelectionRules {
  import opened BlockTree
  import opened SkipList
  import opened BlockChain

  type Path = seq<BlockIndex?>

  datatype Verdict = Accept | Reject | SystemFailure

  // How a round of ActivateBestChain ends, and, apart from Retry, how the whole call ends.
  datatype Exit = NothingToDo | Complete | FinalityHeld | Failure | Retry

  // What the code asks of the world outside the block tree. Every question carries the number of
  // questions put before it, so the answer may be another one each time.
  datatype Environment = Environment(
    connect: (BlockIndex, nat) -> Verdict,      // ReadBlockFromDisk, ConnectBlock, WriteChainState
    disconnect: (BlockIndex, nat) -> bool,      // the same for DisconnectBlock
    localFinTimedOut: nat -> bool,              // GetTime() - GetLocalFinLastUpdate() > 60
    written: nat -> bool)                       // WriteBlockIndex, UpdateBlockIndexDB; numbered by themselves

  ghost predicate Rejected(env: Environment, b: BlockIndex?) {
    b != null && exists n: nat :: env.connect(b, n) == Reject
  }

  ghost predicate Accepted(env: Environment, b: BlockIndex?) {
    b != null && exists n: nat :: env.connect(b, n) == Accept
  }

  ghost predicate NeverAccepted(env: Environment, b: BlockIndex?) {
    b != null ==> forall n: nat :: env.connect(b, n) != Accept
  }

  // A block found invalid once is never found valid.
  ghost predicate Consistent(env: Environment, blocks: set<BlockIndex>) {
    forall b <- blocks :: Rejected(env, b) ==> NeverAccepted(env, b)
  }

  ghost predicate SkipsBuiltIn(blocks: set<BlockIndex>) {
    forall b <- blocks :: Linked(b) && SkipsBuilt(b)
  }

  // The map lists the blocks by their hashes.
  ghost predicate Indexed(index: map<Hash, BlockIndex>, blocks: set<BlockIndex>)
  {
    index.Values == blocks && forall h <- index :: index[h].hash == h
  }

  lemma IndexedAt(index: map<Hash, BlockIndex>, blocks: set<BlockIndex>, h: Hash)
    requires Indexed(index, blocks)
    ensures h in index ==> index[h] in blocks
    ensures h !in index ==> forall c <- blocks :: c.hash != h
  {
  }

  lemma SkipsBuiltInMore(blocks: set<BlockIndex>, b: BlockIndex)
    requires SkipsBuiltIn(blocks) && Linked(b) && SkipsBuilt(b)
    ensures SkipsBuiltIn(blocks + {b})
  {
  }

  lemma SkipsBuiltAt(blocks: set<BlockIndex>, b: BlockIndex)
    requires SkipsBuiltIn(blocks) && b in blocks
    ensures Linked(b) && SkipsBuilt(b)
  {
  }

  lemma SameIndex(index: map<Hash, BlockIndex>, blocks: set<BlockIndex>)
    requires Indexed(index, blocks)
    ensures index.Values == blocks
  {
  }

  lemma IndexGrows(index: map<Hash, BlockIndex>, blocks: set<BlockIndex>, b: BlockIndex)
    requires Indexed(index, blocks) && b.hash !in index
    ensures Indexed(index[b.hash := b], blocks + {b})
  {
    var index' := index[b.hash := b];
    forall c <- index.Values
      ensures c in index'.Values
    {
      var h :| h in index && index[h] == c;
      assert index'[h] == c;
    }
    assert index'[b.hash] == b;
    assert index'.Values == blocks + {b};
  }

  // No block of b's way back is flagged, down to where it joins the active path.
  ghost predicate Clean(active: Path, failed: set<BlockIndex>, b: BlockIndex)
  {
    Linked(b) && forall h | 0 <= h <= b.height && !SharesAt(active, b, h) :: Ancestor(b, h) !in failed
  }

  // A proper ancestor of b off the active path is flagged.
  ghost predicate Tainted(active: Path, failed: set<BlockIndex>, b: BlockIndex)
  {
    Linked(b) && exists h :: 0 <= h < b.height && !SharesAt(active, b, h) && Ancestor(b, h) in failed
  }

  // The blocks of b's way back strictly above height h.
  ghost function Above(b: BlockIndex, h: nat): set<BlockIndex>
    requires Linked(b)
  {
    set k | h < k <= b.height :: Ancestor(b, k)
  }

  lemma InAbove(b: BlockIndex, h: nat)
    requires Linked(b) && h < b.height
    ensures b in Above(b, h)
  {
    assert b == Ancestor(b, b.height);
  }

  // The path m without its flagged upper end.
  ghost function Trimmed(m: Path, failed: set<BlockIndex>): (t: Path)
    ensures t <= m && (t != [] ==> t[|t| - 1] !in failed)
    ensures forall i | |t| <= i < |m| :: m[i] in failed
  {
    if m == [] || m[|m| - 1] !in failed then m else Trimmed(m[..|m| - 1], failed)
  }

  // What FindMostWorkChain makes of the path m0, given the flagged blocks before and after it.
  ghost predicate MostWork(active: Path, failed0: set<BlockIndex>, failed1: set<BlockIndex>,
                           blocks: set<BlockIndex>, m0: Path, m1: Path)
  {
    var kept := Trimmed(m0, failed0);
    if blocks - failed1 == {} then m1 == kept
    else exists best <- blocks - failed1 ::
           && IsGreatest(best, blocks - failed1)
           && Clean(active, failed1, best)
           && if LastOf(kept) != null && !Less(LastOf(kept), best) then m1 == kept else LastOf(m1) == best
  }

  ghost predicate Unflagged(m: Path, failed: set<BlockIndex>) {
    forall i | 0 <= i < |m| :: m[i] !in failed
  }

  ghost predicate LowestFlagged(m: Path, failed: set<BlockIndex>, i: int) {
    0 <= i < |m| && m[i] in failed && Unflagged(m[..i], failed)
  }

  // b was found invalid, or descends from a flagged block.
  ghost predicate FlagJustified(env: Environment, failed: set<BlockIndex>, b: BlockIndex) {
    Rejected(env, b) || (Linked(b) && exists h :: 0 <= h < b.height && Ancestor(b, h) in failed)
  }

  // The number of blocks two paths share.
  ghost function CommonLength(a: Path, m: Path): (k: nat)
    ensures k <= |a| && k <= |m|
  {
    if a == [] || m == [] || a[0] != m[0] then 0 else 1 + CommonLength(a[1..], m[1..])
  }

  lemma {:induction false} CommonLengthShares(a: Path, m: Path)
    ensures var k := CommonLength(a, m);
            a[..k] == m[..k] && (k < |a| && k < |m| ==> a[k] != m[k])
  {
    if a != [] && m != [] && a[0] == m[0] {
      CommonLengthShares(a[1..], m[1..]);
      var k := CommonLength(a, m);
      assert a[..k] == [a[0]] + a[1..][..k - 1];
      assert m[..k] == [m[0]] + m[1..][..k - 1];
    }
  }

  // Two paths that hold the same block at a height agree up to it.
  lemma HeldIsCommon(a: Path, m: Path, i: nat)
    requires IsPath(a) && IsPath(m) && i < |a|
    ensures i < |m| && a[i] == m[i] <==> i < CommonLength(a, m)
  {
    CommonLengthShares(a, m);
    var k := CommonLength(a, m);
    if i < k {
      assert a[i] == a[..k][i] == m[..k][i];
    } else if i < |m| && a[i] == m[i] {
      AncestorOfAncestor(LastOf(a), i, k);
      AncestorOfAncestor(LastOf(m), i, k);
    }
  }

  lemma PathInTree(blocks: set<BlockIndex>, m: Path, i: nat)
    requires Tree(blocks) && IsPath(m) && i < |m| && LastOf(m) in blocks
    ensures m[i] != null && m[i] in blocks && Linked(m[i]) && m[i].height == i && m[i] == Ancestor(LastOf(m), i)
  {
    AncestorInTree(blocks, LastOf(m), i);
  }

  // If the tip that FindMostWorkChain leaves is not flagged, its way back to the active chain is clean.
  lemma UnflaggedTipIsClean(active: Path, failed0: set<BlockIndex>, failed1: set<BlockIndex>,
                            blocks: set<BlockIndex>, m0: Path, m1: Path)
    requires MostWork(active, failed0, failed1, blocks, m0, m1)
    requires Tree(blocks) && LastOf(m1) in blocks && LastOf(m1) !in failed1
    ensures Clean(active, failed1, LastOf(m1))
  {
    var tip := LastOf(m1);
    assert tip in blocks - failed1;
    var best :| best in blocks - failed1 && IsGreatest(best, blocks - failed1) && Clean(active, failed1, best)
                && if LastOf(Trimmed(m0, failed0)) != null && !Less(LastOf(Trimmed(m0, failed0)), best)
                   then m1 == Trimmed(m0, failed0) else LastOf(m1) == best;
  }

  // A tip that FindMostWorkChain installs is the greatest of all unflagged blocks with a clean way back,
  // by the flags that the search started from.
  lemma InstalledTipIsGreatest(active: Path, failed0: set<BlockIndex>, failed1: set<BlockIndex>,
                               blocks: set<BlockIndex>, m0: Path, m1: Path, c: BlockIndex)
    requires MostWork(active, failed0, failed1, blocks, m0, m1) && m1 != Trimmed(m0, failed0)
    requires failed0 <= failed1 && forall b <- failed1 - failed0 :: Tainted(active, failed0, b)
    requires c in blocks - failed0 && Clean(active, failed0, c)
    ensures LastOf(m1) in blocks - failed0 && Clean(active, failed0, LastOf(m1))
    ensures c == LastOf(m1) || Less(c, LastOf(m1))
  {
    assert c in failed1 ==> c in failed1 - failed0;
    assert c in blocks - failed1;
  }

  // If it is flagged, the search has just flagged it.
  lemma FlaggedTipIsNew(active: Path, failed0: set<BlockIndex>, failed1: set<BlockIndex>,
                        blocks: set<BlockIndex>, m0: Path, m1: Path)
    requires MostWork(active, failed0, failed1, blocks, m0, m1)
    requires m1 != [] && LastOf(m1) in failed1
    ensures LastOf(m1) !in failed0
  {
  }

  // No active block is ever flagged by the search.
  lemma ActiveStaysUnflagged(active: Path, failed0: set<BlockIndex>, failed1: set<BlockIndex>)
    requires IsPath(active) && Unflagged(active, failed0)
    requires forall b <- failed1 - failed0 :: Tainted(active, failed0, b)
    ensures Unflagged(active, failed1)
  {
    forall i | 0 <= i < |active|
      ensures active[i] !in failed1
    {
      if active[i] in failed1 - failed0 {
        var b := active[i];
        var h :| 0 <= h < b.height && !SharesAt(active, b, h) && Ancestor(b, h) in failed0;
        AncestorOfAncestor(LastOf(active), i, h);
        assert false;
      }
    }
  }

  // A path to a clean block has no flagged block, given that the active path has none.
  lemma CleanPathIsUnflagged(active: Path, failed: set<BlockIndex>, m: Path)
    requires IsPath(m) && m != [] && Unflagged(active, failed) && Clean(active, failed, LastOf(m))
    ensures Unflagged(m, failed)
  {
  }

  // A flagged block on top of an unflagged active chain was found invalid.
  lemma FlaggedOnTipIsRejected(env: Environment, active: Path, failed: set<BlockIndex>, b: BlockIndex)
    requires IsPath(active) && Unflagged(active, failed) && b.pprev == LastOf(active)
    requires Linked(b) && FlagJustified(env, failed, b)
    ensures Rejected(env, b)
  {
    if !Rejected(env, b) {
      var h :| 0 <= h < b.height && Ancestor(b, h) in failed;
      SlotParent(active, |active| - 1);
      assert Ancestor(b, h) == active[h];
    }
  }

  lemma JustifiedStays(env: Environment, failed0: set<BlockIndex>, failed1: set<BlockIndex>, b: BlockIndex)
    requires failed0 <= failed1 && FlagJustified(env, failed0, b)
    ensures FlagJustified(env, failed1, b)
  {
  }

  // Flags are only added, each for a reason.
  ghost predicate Reasonable(env: Environment, failed0: set<BlockIndex>, failed1: set<BlockIndex>) {
    failed0 <= failed1 && forall b <- failed1 - failed0 :: FlagJustified(env, failed1, b)
  }

  lemma ReasonableTransitive(env: Environment, f0: set<BlockIndex>, f1: set<BlockIndex>, f2: set<BlockIndex>)
    requires Reasonable(env, f0, f1) && Reasonable(env, f1, f2)
    ensures Reasonable(env, f0, f2)
  {
    hide FlagJustified;
    forall b <- f2 - f0
      ensures FlagJustified(env, f2, b)
    {
      if b in f1 {
        JustifiedStays(env, f1, f2, b);
      }
    }
  }

  // A final block is on the first path only if it is on the second.
  ghost predicate FinalKept(blocks: set<BlockIndex>, final: Hash, a0: Path, a1: Path) {
    forall b <- blocks | b.hash == final && Holds(a0, b) :: Holds(a1, b)
  }

  // What is left after disconnecting is common to both chains.
  lemma ForkIsCommon(a: Path, a': Path, m: Path)
    requires a' <= a && |a'| == CommonLength(a, m)
    ensures a' <= m
  {
    CommonLengthShares(a, m);
  }

  lemma JustifiedSince(env: Environment, failed0: set<BlockIndex>, failed1: set<BlockIndex>, b: BlockIndex)
    requires Reasonable(env, failed0, failed1) && b in failed1
    requires b in failed0 ==> FlagJustified(env, failed0, b)
    ensures FlagJustified(env, failed1, b)
  {
  }

  lemma NextIsNotOn(a: Path, b: BlockIndex)
    requires IsPath(a) && Linked(b) && b.pprev == LastOf(a)
    ensures b !in a
  {
  }

  lemma {:induction false} Cardinality(s: set<BlockIndex>, t: set<BlockIndex>)
    requires s <= t
    ensures |s| <= |t|
  {
    if s != {} {
      var b :| b in s;
      Cardinality(s - {b}, t - {b});
    }
  }

  lemma Smaller(s: set<BlockIndex>, t: set<BlockIndex>, b: BlockIndex)
    requires s <= t && b in t && b !in s
    ensures |s| < |t|
  {
    assert s <= t - {b};
    Cardinality(s, t - {b});
  }

  // A rejection leaves fewer unflagged blocks than the round began with, also when the rejected block
  // had been flagged before: then the search has flagged the tip above it.
  lemma RejectionProgress(env: Environment, blocks: set<BlockIndex>, active: Path, m0: Path, m1: Path,
                          failed0: set<BlockIndex>, failed1: set<BlockIndex>, i: nat)
    requires MostWork(active, failed0, failed1, blocks, m0, m1)
    requires Tree(blocks) && failed0 <= failed1 && IsPath(active) && IsPath(m1)
    requires CommonLength(active, m1) <= i < |m1| && LastOf(m1) in blocks
    ensures |blocks - (failed1 + {m1[i]})| < |blocks - failed0|
  {
    PathInTree(blocks, m1, i);
    var next := m1[i];
    var left := blocks - (failed1 + {next});
    var gone := if LastOf(m1) in failed1 then LastOf(m1) else next;
    if LastOf(m1) in failed1 {
      FlaggedTipIsNew(active, failed0, failed1, blocks, m0, m1);
    } else {
      UnflaggedTipIsClean(active, failed0, failed1, blocks, m0, m1);
      if SharesAt(active, LastOf(m1), i) {
        HeldIsCommon(active, m1, i);
      }
      assert next !in failed1;
    }
    Smaller(left, blocks - failed0, gone);
  }

  // The blocks of a path from height h on.
  ghost function From(a: Path, h: nat): set<BlockIndex> {
    set i | h <= i < |a| && a[i] != null :: a[i]
  }

  lemma FromStep(a: Path, h: nat)
    ensures h < |a| && a[h] != null ==> From(a, h) == From(a, h + 1) + {a[h]}
    ensures h >= |a| ==> From(a, h) == {}
  {
  }

  // Two paths that hold the same block hold the same blocks below it.
  lemma HoldsBelow(a: Path, m: Path, i: nat, h: nat)
    requires IsPath(a) && IsPath(m) && h <= i < |a| && i < |m| && a[i] == m[i]
    ensures a[h] == m[h]
  {
    HeldIsCommon(a, m, i);
    HeldIsCommon(a, m, h);
  }

  lemma TrimmedStep(m: Path, failed: set<BlockIndex>)
    requires m != [] && LastOf(m) in failed
    ensures Trimmed(m, failed) == Trimmed(m[..|m| - 1], failed)
  {
  }

  lemma TrimmedIsAll(m: Path, failed: set<BlockIndex>)
    requires m == [] || LastOf(m) !in failed
    ensures Trimmed(m, failed) == m
  {
  }

  // The blocks of s that descend from p, or are p.
  ghost function Descendants(s: set<BlockIndex>, p: BlockIndex): set<BlockIndex> {
    set b <- s | Linked(b) && IsAncestor(p, b)
  }

  lemma DescendantsStep(s: set<BlockIndex>, p: BlockIndex, b: BlockIndex)
    requires Linked(b)
    ensures Descendants({}, p) == {}
    ensures Descendants(s + {b}, p) == Descendants(s, p) + if IsAncestor(p, b) then {b} else {}
  {
  }
}
