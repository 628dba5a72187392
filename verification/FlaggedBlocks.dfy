// Flagged blocks and the active chain (src/main.cpp): the invariant that keeps flagged blocks off the active
// chain, and exactly when a call of ActivateBestChain makes one active.

module FlaggedBlocks {
  import opened BlockTree
  import opened BlockChain
  import opened SelectionRules
  import opened Activation
  import opened ActivationLaws

  // Connecting along m from the chain a stops at height j at the latest.
  ghost predicate Stops(env: Environment, a: Path, m: Path, j: int) {
    0 <= j < |m| && NeverAccepted(env, m[j]) && !(j < |a| && a[j] == m[j])
  }

  // No flagged block of m can be reached.
  ghost predicate Guarded(env: Environment, a: Path, m: Path, failed: set<BlockIndex>) {
    forall i | 0 <= i < |m| && m[i] in failed :: exists j :: j <= i && Stops(env, a, m, j)
  }

  // No active block is flagged, and chainMostWork, without its flagged upper end, cannot make one active.
  ghost predicate Protected(env: Environment, s: State) {
    Unflagged(s.active, s.failed) && Guarded(env, s.active, Trimmed(s.mostWork, s.failed), s.failed)
  }

  lemma GuardedPart(env: Environment, a: Path, m: Path, failed: set<BlockIndex>, m': Path)
    requires Guarded(env, a, m, failed) && m' <= m
    ensures Guarded(env, a, m', failed)
  {
    forall i | 0 <= i < |m'| && m'[i] in failed
      ensures exists j :: j <= i && Stops(env, a, m', j)
    {
      var j :| j <= i && Stops(env, a, m, j);
      assert Stops(env, a, m', j);
    }
  }

  // Blocks that were accepted, or were there before, guard nothing.
  lemma GuardStays(env: Environment, a: Path, a': Path, m: Path, failed: set<BlockIndex>)
    requires Guarded(env, a, m, failed)
    requires forall i | 0 <= i < |a'| :: (i < |a| && a[i] == a'[i]) || Accepted(env, a'[i])
    ensures Guarded(env, a', m, failed)
  {
    forall i | 0 <= i < |m| && m[i] in failed
      ensures exists j :: j <= i && Stops(env, a', m, j)
    {
      var j :| j <= i && Stops(env, a, m, j);
      assert Stops(env, a', m, j);
    }
  }

  // A block that stops the way guards itself and all above it.
  lemma GuardGrows(env: Environment, a: Path, m: Path, failed: set<BlockIndex>, b: BlockIndex)
    requires Guarded(env, a, m, failed) && NeverAccepted(env, b) && b !in a
    ensures Guarded(env, a, m, failed + {b})
  {
    forall i | 0 <= i < |m| && m[i] in failed + {b}
      ensures exists j :: j <= i && Stops(env, a, m, j)
    {
      if m[i] == b {
        assert Stops(env, a, m, i);
      }
    }
  }

  // A tainted block of a path has a flagged block below it.
  lemma FlaggedBelow(active: Path, failed: set<BlockIndex>, m: Path, i: nat) returns (h: nat)
    requires IsPath(m) && i < |m| && m[i] != null && Tainted(active, failed, m[i])
    ensures h < i && m[h] in failed
  {
    var b: BlockIndex := m[i];
    SlotParent(m, i);
    h :| 0 <= h < b.height && !SharesAt(active, b, h) && Ancestor(b, h) in failed;
    AncestorOfAncestor(LastOf(m), i, h);
  }

  // What the search leaves is guarded up to its tip.
  lemma SearchGuards(env: Environment, s: State, t: State)
    requires WellFormed(s) && SearchStep(s, t) && Protected(env, s)
    ensures Unflagged(t.active, t.failed) && Guarded(env, t.active, t.mostWork, t.failed)
  {
    ActiveStaysUnflagged(s.active, s.failed, t.failed);
    var kept, m := Trimmed(s.mostWork, s.failed), t.mostWork;
    if m == kept {
      forall i | 0 <= i < |m| && m[i] in t.failed
        ensures exists j :: j <= i && Stops(env, t.active, m, j)
      {
        if m[i] !in s.failed {
          var h := FlaggedBelow(s.active, s.failed, m, i);
          var j :| j <= h && Stops(env, s.active, kept, j);
        }
      }
    } else if m != [] {
      CleanPathIsUnflagged(t.active, t.failed, m);
    }
  }

  // A block on top of an unflagged active chain is not tainted.
  lemma NextIsNotTainted(active: Path, failed: set<BlockIndex>, b: BlockIndex)
    requires IsPath(active) && Unflagged(active, failed) && Linked(b) && b.pprev == LastOf(active)
    ensures !Tainted(active, failed, b)
  {
  }

  lemma ConnectingProtects(env: Environment, s: State, t: State, exit: Exit)
    requires IsPath(s.mostWork) && s.active <= s.mostWork && ConnectStep(env, s, t, exit)
    requires Tree(s.Blocks()) && (s.mostWork != [] ==> LastOf(s.mostWork) in s.Blocks())
    requires Consistent(env, s.Blocks())
    requires Unflagged(s.active, s.failed) && Guarded(env, s.active, s.mostWork, s.failed)
    ensures Unflagged(t.active, t.failed) && Guarded(env, t.active, t.mostWork, t.failed)
  {
    hide Linked, Ancestor, IsPath, Tree;
    var m, lo, hi := s.mostWork, |s.active|, |t.active|;
    forall i | lo <= i < hi
      ensures Accepted(env, m[i])
    {
      assert env.connect(m[i], s.asked + i - lo) == Accept;
    }
    assert forall j | 0 <= j < lo :: s.active[j] == m[j];
    assert forall j | 0 <= j < hi :: !Stops(env, s.active, m, j);
    GuardStays(env, s.active, t.active, m, s.failed);
    if t.failed != s.failed {
      PathInTree(s.Blocks(), m, hi);
      assert env.connect(m[hi], s.asked + hi - lo) == Reject;
      forall i | 0 <= i < hi
        ensures m[i] != m[hi]
      {
        SlotParent(m, i);
      }
      GuardGrows(env, t.active, m, s.failed, m[hi]);
    }
  }

  // Disconnecting and connecting along a guarded path never meets a flagged block.
  lemma ReorganisingProtects(env: Environment, s: State, t: State, exit: Exit)
    requires WellFormed(s) && Consistent(env, s.Blocks()) && ReorganiseStep(env, s, t, exit)
    requires Unflagged(s.active, s.failed) && Guarded(env, s.active, s.mostWork, s.failed)
    ensures Protected(env, t)
  {
    hide Linked, Ancestor, IsPath, CommonLength, Tree, Disconnects;
    var a, m, k := s.active, s.mostWork, CommonLength(s.active, s.mostWork);
    CommonLengthShares(a, m);
    if m != [] {
      SlotParent(m, |m| - 1);
    }
    if DisconnectFails(env, s, t, k) {
      GuardStays(env, a, t.active, m, s.failed);
    } else {
      var u := s.(active := a[..k], asked := s.asked + |a| - k);
      GuardStays(env, a, a[..k], m, s.failed);
      ConnectingProtects(env, u, t, exit);
    }
    GuardedPart(env, t.active, m, t.failed, Trimmed(m, t.failed));
  }

  // A round keeps the protection; for the new block see NewBlockPremise.
  ghost predicate NewBlockPremise(env: Environment, s: State, b: BlockIndex?) {
    b != null ==> b in s.Blocks() && (b in s.failed ==> FlagJustified(env, s.failed, b))
  }

  lemma SearchJustifies(env: Environment, s: State, u: State, b: BlockIndex)
    requires SearchStep(s, u) && NewBlockPremise(env, s, b) && b in u.failed
    ensures FlagJustified(env, u.failed, b)
  {
    if b in s.failed {
      JustifiedStays(env, s.failed, u.failed, b);
    } else {
      TaintedIsJustified(env, s.active, s.failed, u.failed, b);
    }
  }

  lemma FinBlockProtects(env: Environment, s: State, b: BlockIndex?, t: State, ok: bool)
    requires WellFormed(s) && Consistent(env, s.Blocks()) && FinBlockStep(env, s, b, t, ok)
    requires Unflagged(s.active, s.failed) && Guarded(env, s.active, s.mostWork, s.failed)
    requires b != null ==> b in s.Blocks() && (b in s.failed ==> FlagJustified(env, s.failed, b))
    ensures Protected(env, t)
  {
    hide Ancestor, IsPath, Tree, FlagJustified;
    if b != null && LastOf(s.active) == b.pprev {
      InTree(s.Blocks(), b);
      NextIsNotOn(s.active, b);
      var n := s.asked;
      assert s.active + [] == s.active && s.failed + {} == s.failed;
      if env.connect(b, n) == Accept {
        assert Accepted(env, b);
        if b in s.failed {
          FlaggedOnTipIsRejected(env, s.active, s.failed, b);
          assert false;
        }
        GuardStays(env, s.active, t.active, s.mostWork, s.failed);
      } else if env.connect(b, n) == Reject {
        assert Rejected(env, b);
        GuardGrows(env, s.active, s.mostWork, s.failed, b);
      }
    }
    GuardedPart(env, t.active, t.mostWork, t.failed, Trimmed(t.mostWork, t.failed));
  }

  lemma RoundProtects(env: Environment, final: Hash, b: BlockIndex?, r: Round)
    requires IsRound(env, final, b, r) && Consistent(env, r.start.Blocks())
    requires Protected(env, r.start) && NewBlockPremise(env, r.start, b)
    ensures Protected(env, r.end) && NewBlockPremise(env, r.end, b)
  {
    hide Linked, Ancestor, IsPath, CommonLength, Tree, MostWork, Tainted, Disconnects, Connects, FinalityWalk,
         FlagJustified;
    RoundFrame(env, final, b, r);
    RoundJustifiesFlags(env, final, b, r);
    if b != null && b in r.end.failed {
      JustifiedSince(env, r.start.failed, r.end.failed, b);
    }
    var u := r.searched;
    SearchGuards(env, r.start, u);
    var w := FinalityWalk(env, final, u.active, u.mostWork, |u.active|, u.localFin, u.asked);
    var v := u.(localFin := w.localFin, asked := w.asked);
    if u.mostWork == [] {
    } else if w.held {
      if b != null && b in u.failed {
        SearchJustifies(env, r.start, u, b);
      }
      FinBlockProtects(env, v, b, r.end, r.exit == FinalityHeld);
    } else {
      ReorganisingProtects(env, v, r.end, r.exit);
    }
  }

  // ---- Exactly when a flagged block becomes active ---------------------------------------------------

  // The inner loops get as far as the lowest flagged block of chainMostWork, at height i.
  ghost predicate Reaches(env: Environment, a: Path, m: Path, failed: set<BlockIndex>, asked: nat, i: nat) {
    var k := CommonLength(a, m);
    && LowestFlagged(m, failed, i)
    && Disconnects(env, a, asked, k) && Connects(env, m, asked + |a| - k, k, i + 1)
  }

  // chainMostWork, without its flagged upper end, has a flagged block; no unflagged block with a clean way
  // back is better than its tip; no final block is in the way; and the blocks up to the lowest flagged
  // one are disconnected and connected without failure or rejection.
  ghost predicate FlaggedIsNext(env: Environment, final: Hash, s: State) {
    var m := Trimmed(s.mostWork, s.failed);
    var w := FinalityWalk(env, final, s.active, m, |s.active|, s.localFin, s.asked);
    && m != [] && LastOf(m) != null
    && (forall c <- s.Candidates() | Clean(s.active, s.failed, c) :: !Less(LastOf(m), c))
    && !w.held
    && exists i: nat :: Reaches(env, s.active, m, s.failed, w.asked, i)
  }

  lemma {:induction false} LowestExists(m: Path, failed: set<BlockIndex>, n: nat) returns (i: nat)
    requires n < |m| && m[n] in failed
    ensures i <= n && LowestFlagged(m, failed, i)
    decreases n
  {
    if j :| 0 <= j < n && m[j] in failed {
      i := LowestExists(m, failed, j);
    } else {
      i := n;
    }
  }

  lemma FailingReachesNothing(env: Environment, s: State, t: State, k: nat)
    requires DisconnectFails(env, s, t, k)
    ensures !Disconnects(env, s.active, s.asked, k)
    ensures Unflagged(s.active, s.failed) ==> Unflagged(t.active, t.failed)
  {
  }

  lemma ReachesIfConnected(env: Environment, s: State, k: nat, i: nat)
    requires k == CommonLength(s.active, s.mostWork) && Disconnects(env, s.active, s.asked, k)
    ensures Reaches(env, s.active, s.mostWork, s.failed, s.asked, i) <==>
              LowestFlagged(s.mostWork, s.failed, i) && Connects(env, s.mostWork, s.asked + |s.active| - k, k, i + 1)
  {
  }

  lemma ConnectingReaches(env: Environment, s: State, t: State, exit: Exit)
    requires IsPath(s.mostWork) && s.active <= s.mostWork && ConnectStep(env, s, t, exit)
    requires Unflagged(s.active, s.failed)
    ensures Unflagged(t.active, t.failed) <==>
              forall i: nat | LowestFlagged(s.mostWork, s.failed, i) ::
                !Connects(env, s.mostWork, s.asked, |s.active|, i + 1)
  {
    hide Linked, Ancestor, IsPath, Tree;
    var m, lo, hi := s.mostWork, |s.active|, |t.active|;
    forall i | 0 <= i < |m|
      ensures m[i] != null && m[i].height == i
    {
      SlotParent(m, i);
    }
    if n :| 0 <= n < hi && m[n] in s.failed {
      var i := LowestExists(m, s.failed, n);
      assert Connects(env, m, s.asked, lo, i + 1);
      assert t.active[i] in t.failed;
    } else {
      assert Unflagged(t.active, t.failed);
      forall i: nat | LowestFlagged(m, s.failed, i)
        ensures !Connects(env, m, s.asked, lo, i + 1)
      {
        assert env.connect(m[hi], s.asked + hi - lo) != Accept;
      }
    }
  }

  // From an unflagged active chain the inner loops make a flagged block active exactly if they reach one.
  lemma ReorganisingReaches(env: Environment, s: State, t: State, exit: Exit)
    requires WellFormed(s) && Unflagged(s.active, s.failed) && ReorganiseStep(env, s, t, exit)
    ensures Unflagged(t.active, t.failed) <==>
              forall i: nat :: !Reaches(env, s.active, s.mostWork, s.failed, s.asked, i)
  {
    hide Linked, Ancestor, IsPath, CommonLength, Tree, DisconnectFails, Disconnects, ConnectStep;
    var a, m, k := s.active, s.mostWork, CommonLength(s.active, s.mostWork);
    CommonLengthShares(a, m);
    if DisconnectFails(env, s, t, k) {
      FailingReachesNothing(env, s, t, k);
    } else {
      var u := s.(active := a[..k], asked := s.asked + |a| - k);
      assert u.active <= m;
      hide Connects, Reaches, LowestFlagged;
      ConnectingReaches(env, u, t, exit);
      forall i: nat
        ensures Reaches(env, a, m, s.failed, s.asked, i) <==>
                  LowestFlagged(m, s.failed, i) && Connects(env, m, u.asked, |u.active|, i + 1)
      {
        ReachesIfConnected(env, s, k, i);
      }
    }
  }

  // The search and FlaggedIsNext speak of the same lowest flagged block.
  lemma SearchKeepsLowest(s: State, t: State, i: nat)
    requires WellFormed(s) && SearchStep(s, t) && t.mostWork == Trimmed(s.mostWork, s.failed)
    ensures LowestFlagged(t.mostWork, t.failed, i) <==> LowestFlagged(t.mostWork, s.failed, i)
  {
    hide Linked, Ancestor, IsPath, Tree, Tainted, MostWork;
    var m := t.mostWork;
    if 0 <= i < |m| && m[i] in t.failed && m[i] !in s.failed {
      var h := FlaggedBelow(s.active, s.failed, m, i);
      assert m[..i][h] in t.failed;
    }
    if n :| 0 <= n < i <= |m| && m[n] in t.failed && m[n] !in s.failed {
      var h := FlaggedBelow(s.active, s.failed, m, n);
      assert m[..i][h] in s.failed;
    }
  }

  lemma SameReach(env: Environment, a: Path, m: Path, failed: set<BlockIndex>, failed': set<BlockIndex>, asked: nat,
                  i: nat)
    requires LowestFlagged(m, failed, i) <==> LowestFlagged(m, failed', i)
    ensures Reaches(env, a, m, failed, asked, i) <==> Reaches(env, a, m, failed', asked, i)
  {
  }

  lemma UnflaggedReachesNothing(env: Environment, a: Path, m: Path, failed: set<BlockIndex>, asked: nat, i: nat)
    requires Unflagged(m, failed)
    ensures !Reaches(env, a, m, failed, asked, i)
  {
  }

  lemma InstalledIsUnflagged(s: State, t: State)
    requires WellFormed(s) && SearchStep(s, t) && t.mostWork != Trimmed(s.mostWork, s.failed)
    requires Unflagged(t.active, t.failed)
    ensures Unflagged(t.mostWork, t.failed)
  {
  }

  // The new block is not flagged when it is tried on top of a final block.
  lemma FinBlockIsUnflagged(env: Environment, s: State, u: State, b: BlockIndex?, t: State, ok: bool)
    requires WellFormed(u) && u.Blocks() == s.Blocks() && u.active == s.active && FinBlockStep(env, u, b, t, ok)
    requires Unflagged(s.active, s.failed) && Unflagged(u.active, u.failed)
    requires forall c <- u.failed - s.failed :: Tainted(s.active, s.failed, c)
    requires b != null ==> b in s.Blocks() && b !in s.failed
    ensures Unflagged(t.active, t.failed)
  {
    hide Ancestor, IsPath, Tree, Tainted;
    if b != null && LastOf(u.active) == b.pprev {
      InTree(u.Blocks(), b);
      NextIsNotTainted(s.active, s.failed, b);
      NextIsNotOn(s.active, b);
    }
  }

  // One round from an unflagged active chain leaves it so exactly if no flagged block is next.
  lemma RoundReaches(env: Environment, final: Hash, b: BlockIndex?, r: Round)
    requires IsRound(env, final, b, r) && Unflagged(r.start.active, r.start.failed)
    requires b != null ==> b in r.start.Blocks() && b !in r.start.failed
    ensures Unflagged(r.end.active, r.end.failed) <==> !FlaggedIsNext(env, final, r.start)
  {
    hide Linked, Ancestor, IsPath, CommonLength, Tree, MostWork, Tainted, FinalityWalk, Reaches, Disconnects, Connects,
         Trimmed, Clean, ReorganiseStep;
    var s, u, t := r.start, r.searched, r.end;
    var m := Trimmed(s.mostWork, s.failed);
    ActiveStaysUnflagged(s.active, s.failed, u.failed);
    if m != [] {
      KeptUnlessBeaten(s, u);
    }
    var w := FinalityWalk(env, final, u.active, u.mostWork, |u.active|, u.localFin, u.asked);
    var v := u.(localFin := w.localFin, asked := w.asked);
    if u.mostWork == [] {
    } else if w.held {
      FinBlockIsUnflagged(env, s, v, b, t, r.exit == FinalityHeld);
    } else {
      ReorganisingReaches(env, v, t, r.exit);
      if u.mostWork == m {
        forall i: nat
          ensures Reaches(env, s.active, m, u.failed, w.asked, i) <==> Reaches(env, s.active, m, s.failed, w.asked, i)
        {
          SearchKeepsLowest(s, u, i);
          SameReach(env, s.active, m, u.failed, s.failed, w.asked, i);
        }
      } else {
        InstalledIsUnflagged(s, u);
        forall i: nat
          ensures !Reaches(env, v.active, v.mostWork, v.failed, v.asked, i)
        {
          UnflaggedReachesNothing(env, v.active, v.mostWork, v.failed, v.asked, i);
        }
      }
    }
  }

  // A rejected block that makes the code retry guards chainMostWork from then on.
  lemma RetryProtects(env: Environment, final: Hash, b: BlockIndex?, r: Round)
    requires IsRound(env, final, b, r) && r.exit == Retry && Consistent(env, r.start.Blocks())
    requires Unflagged(r.end.active, r.end.failed)
    ensures Protected(env, r.end)
  {
    hide Linked, Ancestor, IsPath, CommonLength, Tree, MostWork, Tainted, Disconnects, Connects, FinalityWalk, Trimmed;
    var u, m, hi := r.searched, r.end.mostWork, |r.end.active|;
    RoundFrame(env, final, b, r);
    SlotParent(m, |m| - 1);
    PathInTree(u.Blocks(), m, hi);
    assert Rejected(env, m[hi]);
    assert r.end.active == m[..hi];
    assert forall i | 0 <= i < hi :: r.end.active[i] == m[i];
    forall i | 0 <= i < |m| && m[i] in r.end.failed
      ensures exists j :: j <= i && Stops(env, r.end.active, m, j)
    {
      assert Stops(env, r.end.active, m, hi);
    }
    GuardedPart(env, r.end.active, m, r.end.failed, Trimmed(m, r.end.failed));
  }

  // ---- Whole calls ----------------------------------------------------------------------------------

  lemma {:induction false} CallProtects(env: Environment, final: Hash, b: BlockIndex?, rounds: seq<Round>, n: nat)
    requires IsCall(env, final, b, rounds) && Consistent(env, rounds[0].start.Blocks()) && n < |rounds|
    requires Protected(env, rounds[0].start) && NewBlockPremise(env, rounds[0].start, b)
    ensures Protected(env, rounds[n].end) && NewBlockPremise(env, rounds[n].end, b)
    ensures rounds[n].end.index == rounds[0].start.index
  {
    hide Protected, NewBlockPremise, IsRound, Consistent;
    if n > 0 {
      CallProtects(env, final, b, rounds, n - 1);
    }
    RoundFrame(env, final, b, rounds[n]);
    RoundProtects(env, final, b, rounds[n]);
  }

  lemma {:induction false} LaterRoundProtects(env: Environment, final: Hash, b: BlockIndex?, rounds: seq<Round>,
                                              n: nat)
    requires IsCall(env, final, b, rounds) && Consistent(env, rounds[0].start.Blocks()) && n < |rounds|
    requires Unflagged(rounds[0].end.active, rounds[0].end.failed)
    requires b != null ==> b in rounds[0].start.Blocks() && b !in rounds[0].start.failed
    ensures rounds[n].end.index == rounds[0].start.index && NewBlockPremise(env, rounds[n].end, b)
    ensures n > 0 || rounds[n].exit == Retry ==> Protected(env, rounds[n].end)
    ensures Unflagged(rounds[n].end.active, rounds[n].end.failed)
  {
    hide IsRound, Consistent, Unflagged, FlagJustified;
    RoundFrame(env, final, b, rounds[n]);
    if n > 0 {
      LaterRoundProtects(env, final, b, rounds, n - 1);
      assert rounds[n - 1].exit == Retry && rounds[n].start == rounds[n - 1].end;
      RoundProtects(env, final, b, rounds[n]);
    } else {
      RoundJustifiesFlags(env, final, b, rounds[0]);
      if b != null && b in rounds[0].end.failed {
        JustifiedSince(env, rounds[0].start.failed, rounds[0].end.failed, b);
      }
      if rounds[0].exit == Retry {
        RetryProtects(env, final, b, rounds[0]);
      }
    }
  }

  // A call makes a flagged block active, after whatever number of rounds, exactly if one is next before it.
  lemma CallReaches(env: Environment, final: Hash, b: BlockIndex?, rounds: seq<Round>)
    requires IsCall(env, final, b, rounds) && Consistent(env, rounds[0].start.Blocks())
    requires Unflagged(rounds[0].start.active, rounds[0].start.failed)
    requires b != null ==> b in rounds[0].start.Blocks() && b !in rounds[0].start.failed
    ensures (exists n :: 0 <= n < |rounds| && !Unflagged(rounds[n].end.active, rounds[n].end.failed))
            <==> FlaggedIsNext(env, final, rounds[0].start)
  {
    hide FlaggedIsNext, IsRound, Consistent, Unflagged;
    RoundReaches(env, final, b, rounds[0]);
    if !FlaggedIsNext(env, final, rounds[0].start) {
      forall n | 0 <= n < |rounds|
        ensures Unflagged(rounds[n].end.active, rounds[n].end.failed)
      {
        if n > 0 {
          LaterRoundProtects(env, final, b, rounds, n);
        }
      }
    }
  }

  lemma GuardedIsNotReached(env: Environment, a: Path, m: Path, failed: set<BlockIndex>, asked: nat, i: nat)
    requires Guarded(env, a, m, failed)
    ensures !Reaches(env, a, m, failed, asked, i)
  {
    hide CommonLength, Disconnects;
    var k := CommonLength(a, m);
    CommonLengthShares(a, m);
    assert forall j | 0 <= j < k :: a[j] == a[..k][j] == m[..k][j] == m[j];
    assert forall j | k <= j <= i < |m| && Stops(env, a, m, j) ::
        m[j] != null ==> env.connect(m[j], asked + |a| - k + j - k) != Accept;
  }

  // A protected state never has a flagged block next.
  lemma ProtectedHasNoneNext(env: Environment, final: Hash, s: State)
    requires WellFormed(s) && Protected(env, s)
    ensures !FlaggedIsNext(env, final, s)
  {
    hide Linked, Ancestor, IsPath, CommonLength, Tree, FinalityWalk, Disconnects, Clean;
    var a, m := s.active, Trimmed(s.mostWork, s.failed);
    CommonLengthShares(a, m);
    var w := FinalityWalk(env, final, a, m, |a|, s.localFin, s.asked);
    forall i: nat
      ensures !Reaches(env, a, m, s.failed, w.asked, i)
    {
      GuardedIsNotReached(env, a, m, s.failed, w.asked, i);
    }
  }
}
