// What every call of ActivateBestChain keeps, and exactly when one makes a flagged block active.

module ActivationLaws {
  import opened BlockTree
  import opened BlockChain
  import opened SelectionRules
  import opened Activation

  // ---- The search -----------------------------------------------------------------------------------

  // No candidate is better than the tip that FindMostWorkChain leaves.
  lemma SearchedTipIsGreatest(s: State, t: State)
    requires SearchStep(s, t)
    ensures forall c <- t.Candidates() :: LastOf(t.mostWork) != null && !Less(LastOf(t.mostWork), c)
  {
  }

  // The search keeps the trimmed path exactly if no unflagged block with a clean way back is better than
  // its tip.
  lemma KeptUnlessBeaten(s: State, t: State)
    requires WellFormed(s) && SearchStep(s, t) && Trimmed(s.mostWork, s.failed) != []
    ensures LastOf(Trimmed(s.mostWork, s.failed)) != null
    ensures t.mostWork == Trimmed(s.mostWork, s.failed) <==>
              forall c <- s.Candidates() | Clean(s.active, s.failed, c) ::
                !Less(LastOf(Trimmed(s.mostWork, s.failed)), c)
  {
    hide Linked, Ancestor, Tree;
    var kept := Trimmed(s.mostWork, s.failed);
    SlotParent(s.mostWork, |kept| - 1);
    assert kept[|kept| - 1] == s.mostWork[|kept| - 1];
    if t.mostWork == kept {
      SearchedTipIsGreatest(s, t);
      forall c <- s.Candidates() | Clean(s.active, s.failed, c)
        ensures !Less(LastOf(kept), c)
      {
        assert c in t.failed ==> Tainted(s.active, s.failed, c);
        assert c in t.Candidates();
      }
    }
  }

  // ---- The finality walk ----------------------------------------------------------------------------

  // The local final block does not time out at the questions from n0 up to n1.
  ghost predicate Quiet(env: Environment, n0: nat, n1: nat) {
    forall n | n0 <= n < n1 :: !env.localFinTimedOut(n)
  }

  // If the walk ends without being held, no final block was passed.
  lemma {:induction false} WalkPassesNoFinal(env: Environment, final: Hash, a: Path, m: Path, n: nat,
                                             localFin: BlockIndex?, asked: nat)
    requires IsPath(a) && IsPath(m) && n <= |a|
    ensures var r := FinalityWalk(env, final, a, m, n, localFin, asked);
            var local := LocalOrRoot(localFin, a);
            && r.asked >= asked
            && (!r.held ==> forall i | CommonLength(a, m) <= i < n :: a[i] != null && a[i].hash != final)
            && (Quiet(env, asked, r.asked) ==>
                  && r.localFin == localFin
                  && (!r.held && local != null ==>
                        forall i | CommonLength(a, m) <= i < n :: a[i].hash != local.hash))
    decreases n
  {
    hide Linked, Ancestor, IsPath, CommonLength;
    if n > 0 {
      HeldIsCommon(a, m, n - 1);
      SlotParent(a, n - 1);
      if a[n - 1] != null && !Holds(m, a[n - 1]) {
        var local := LocalOrRoot(localFin, a);
        if local != null && a[n - 1].hash == local.hash {
          WalkPassesNoFinal(env, final, a, m, n - 1, a[0], asked + 1);
        } else {
          WalkPassesNoFinal(env, final, a, m, n - 1, localFin, asked);
        }
      }
    }
  }

  // The walk is held only by a final block on the way, or by the root after a time-out.
  lemma {:induction false} WalkIsHeldByFinal(env: Environment, final: Hash, a: Path, m: Path, n: nat,
                                             localFin: BlockIndex?, asked: nat)
    requires IsPath(a) && IsPath(m) && n <= |a| && FinalityWalk(env, final, a, m, n, localFin, asked).held
    ensures var local := LocalOrRoot(localFin, a);
            exists i :: CommonLength(a, m) <= i < n && a[i] != null && a[0] != null && local != null
                        && (a[i].hash == final || a[i].hash == local.hash || a[i].hash == a[0].hash)
    decreases n
  {
    hide Linked, Ancestor, IsPath, CommonLength;
    HeldIsCommon(a, m, n - 1);
    SlotParent(a, n - 1);
    SlotParent(a, 0);
    var local := LocalOrRoot(localFin, a);
    if a[n - 1].hash != final && a[n - 1].hash != local.hash {
      WalkIsHeldByFinal(env, final, a, m, n - 1, localFin, asked);
    }
  }

  // The walk is not held if it meets no final block.
  lemma {:induction false} WalkGoesOn(env: Environment, final: Hash, a: Path, m: Path, n: nat, localFin: BlockIndex?,
                                      asked: nat)
    requires IsPath(a) && IsPath(m) && n <= |a|
    requires forall i | CommonLength(a, m) <= i < n ::
               a[i] != null && a[i].hash != final
               && (LocalOrRoot(localFin, a) != null ==> a[i].hash != LocalOrRoot(localFin, a).hash)
    ensures FinalityWalk(env, final, a, m, n, localFin, asked) == Finality(false, localFin, asked)
    decreases n
  {
    hide Linked, Ancestor, IsPath, CommonLength;
    if n > 0 {
      HeldIsCommon(a, m, n - 1);
      SlotParent(a, n - 1);
      WalkGoesOn(env, final, a, m, n - 1, localFin, asked);
    }
  }

  // No two blocks of a path have the same hash.
  ghost predicate DistinctHashes(a: Path) {
    forall i, j | 0 <= i < j < |a| && a[i] != null && a[j] != null :: a[i].hash != a[j].hash
  }

  // A block with this hash is among those that are dropped below height n.
  ghost predicate Drops(a: Path, m: Path, n: nat, hash: Hash) {
    exists i :: CommonLength(a, m) <= i < n && i < |a| && a[i] != null && a[i].hash == hash
  }

  // The local final block is dropped, and is not below a dropped global one.
  ghost predicate AsksForLocal(final: Hash, a: Path, m: Path, n: nat, localFin: BlockIndex?) {
    var local := LocalOrRoot(localFin, a);
    local != null && exists i :: CommonLength(a, m) <= i < n && i < |a| && a[i] != null && a[i].hash == local.hash
                                 && forall j | i < j < n && j < |a| && a[j] != null :: a[j].hash != final
  }

  // The root is dropped, is not the local final block, and is below no dropped global one.
  ghost predicate AsksForRoot(final: Hash, a: Path, m: Path, n: nat, localFin: BlockIndex?) {
    var local := LocalOrRoot(localFin, a);
    && CommonLength(a, m) == 0 && 0 < n <= |a| && local != null && a[0] != null && local.hash != a[0].hash
    && forall j | 0 < j < n && a[j] != null :: a[j].hash != final
  }

  // Exactly when the walk is held, what it asks and what becomes of the local final block: a dropped global final
  // block holds it; a dropped local one holds it unless it times out, and then gives way to the root, which in
  // turn holds the walk if it is dropped too and does not time out at the next question.
  lemma {:induction false} WalkIs(env: Environment, final: Hash, a: Path, m: Path, n: nat, localFin: BlockIndex?,
                                  asked: nat)
    requires IsPath(a) && IsPath(m) && n <= |a| && DistinctHashes(a)
    ensures var r := FinalityWalk(env, final, a, m, n, localFin, asked);
            var asks, out := AsksForLocal(final, a, m, n, localFin), env.localFinTimedOut(asked);
            var again := asks && out && AsksForRoot(final, a, m, n, localFin);
            && (r.held <==> Drops(a, m, n, final) || (asks && !out) || (again && !env.localFinTimedOut(asked + 1)))
            && r.localFin == (if asks && out then a[0] else localFin)
            && r.asked == asked + (if asks then 1 else 0) + (if again then 1 else 0)
    decreases n
  {
    hide Linked, Ancestor, IsPath, CommonLength;
    if n > 0 {
      HeldIsCommon(a, m, n - 1);
      SlotParent(a, n - 1);
      SlotParent(a, 0);
      if n - 1 >= CommonLength(a, m) {
        var local := LocalOrRoot(localFin, a);
        var met := a[n - 1].hash == local.hash;
        WalkIs(env, final, a, m, n - 1, if met then a[0] else localFin, if met then asked + 1 else asked);
      }
    }
  }

  // ---- One round ------------------------------------------------------------------------------------

  // What a round leaves alone; and the blocks below the fork stay, or all if finality holds.
  lemma RoundFrame(env: Environment, final: Hash, b: BlockIndex?, r: Round)
    requires IsRound(env, final, b, r)
    ensures r.end.index == r.start.index && r.end.nextId == r.start.nextId && r.end.asked >= r.start.asked
    ensures r.start.failed <= r.searched.failed <= r.end.failed
    ensures r.end.mostWork == r.searched.mostWork
    ensures || r.start.active <= r.end.active
            || r.start.active[..CommonLength(r.start.active, r.end.mostWork)] <= r.end.active
  {
    hide Linked, Ancestor, IsPath, CommonLength, Tree, Tainted, MostWork;
    var u := r.searched;
    WalkPassesNoFinal(env, final, u.active, u.mostWork, |u.active|, u.localFin, u.asked);
    CommonLengthShares(u.active, u.mostWork);
    if u.mostWork != [] && |r.end.active| > CommonLength(u.active, u.mostWork) && !(u.active <= r.end.active) {
      assert u.active[..CommonLength(u.active, u.mostWork)] <= r.end.active;
    }
  }

  // The local final block does not time out in the finality walk of a round.
  ghost predicate NoTimeOut(env: Environment, final: Hash, r: Round) {
    var u := r.searched;
    u.mostWork != [] ==>
      Quiet(env, u.asked, FinalityWalk(env, final, u.active, u.mostWork, |u.active|, u.localFin, u.asked).asked)
  }

  // A final block on the active chain stays on it: the global one, and the local one unless it times out.
  lemma RoundKeepsFinal(env: Environment, final: Hash, b: BlockIndex?, r: Round)
    requires IsRound(env, final, b, r)
    ensures FinalKept(r.start.Blocks(), final, r.start.active, r.end.active)
    ensures NoTimeOut(env, final, r) && r.start.LocalFin() != null ==>
              && r.end.LocalFin() == r.start.LocalFin()
              && FinalKept(r.start.Blocks(), r.start.LocalFin().hash, r.start.active, r.end.active)
  {
    hide Linked, Ancestor, IsPath, CommonLength, Tree, Tainted, MostWork;
    RoundFrame(env, final, b, r);
    var u := r.searched;
    WalkPassesNoFinal(env, final, u.active, u.mostWork, |u.active|, u.localFin, u.asked);
  }

  lemma PathHasDistinctHashes(blocks: set<BlockIndex>, a: Path)
    requires Tree(blocks) && IsPath(a) && (LastOf(a) != null ==> LastOf(a) in blocks)
    ensures DistinctHashes(a)
  {
    hide IsPath, Linked, Ancestor;
    forall i, j | 0 <= i < j < |a| && a[i] != null && a[j] != null
      ensures a[i].hash != a[j].hash
    {
      SlotParent(a, |a| - 1);
      PathInTree(blocks, a, i);
      PathInTree(blocks, a, j);
    }
  }

  ghost predicate AsksIn(final: Hash, u: State) {
    AsksForLocal(final, u.active, u.mostWork, |u.active|, u.localFin)
  }

  lemma AsksAtActive(final: Hash, u: State)
    ensures AsksIn(final, u) ==> u.active != []
  {
  }

  // A local final block that has timed out gives way to the root.
  ghost function LocalAfter(env: Environment, final: Hash, u: State): BlockIndex? {
    if u.active != [] && AsksIn(final, u) && env.localFinTimedOut(u.asked) then u.active[0] else u.localFin
  }

  // What holds the active chain in state u, after the search.
  ghost predicate IsHeld(env: Environment, final: Hash, u: State) {
    var a, m, n, asks := u.active, u.mostWork, |u.active|, AsksIn(final, u);
    || Drops(a, m, n, final)
    || (asks && !env.localFinTimedOut(u.asked))
    || (asks && AsksForRoot(final, a, m, n, u.localFin) && !env.localFinTimedOut(u.asked + 1))
  }

  // A new block on top of the active chain is tried, with the answer to the last question; any other block
  // changes nothing.
  ghost predicate TriesOnTip(env: Environment, a: Path, failed: set<BlockIndex>, b: BlockIndex?, t: State, exit: Exit) {
    if b != null && b.pprev == LastOf(a) then
      t.asked > 0 && var verdict := env.connect(b, t.asked - 1);
      && exit == (if verdict == SystemFailure then Failure else FinalityHeld)
      && t.active == (if verdict == Accept then a + [b] else a)
      && t.failed == failed + if verdict == Reject then {b} else {}
    else exit == FinalityHeld && t.active == a && t.failed == failed
  }

  // Whether a round goes on is decided by IsHeld, which also says what becomes of the local final block.
  lemma RoundIsDecided(env: Environment, final: Hash, b: BlockIndex?, r: Round)
    requires IsRound(env, final, b, r) && r.searched.mostWork != []
    ensures if IsHeld(env, final, r.searched) then
              TriesOnTip(env, r.start.active, r.searched.failed, b, r.end, r.exit)
            else r.exit == Complete || r.exit == Retry || r.exit == Failure
    ensures r.end.localFin == LocalAfter(env, final, r.searched)
  {
    hide Linked, Ancestor, IsPath, CommonLength, Tree, Tainted, MostWork, Disconnects, Connects, FinalityWalk, Drops,
         AsksForLocal, AsksForRoot, DistinctHashes;
    var u := r.searched;
    PathHasDistinctHashes(u.Blocks(), u.active);
    AsksAtActive(final, u);
    WalkIs(env, final, u.active, u.mostWork, |u.active|, u.localFin, u.asked);
  }

  // The inner loops end with all of m, or right where the last question was not answered well.
  ghost predicate EndsAtAnswer(env: Environment, s: State, t: State, exit: Exit) {
    var a, m, n := s.active, s.mostWork, |t.active|;
    if exit == Complete then t.active == m && t.failed == s.failed
    else
      && t.asked > 0
      && if n < |m| && t.active == m[..n] && m[n] != null && env.connect(m[n], t.asked - 1) != Accept then
           var rejected := env.connect(m[n], t.asked - 1) == Reject;
           && exit == (if rejected then Retry else Failure)
           && t.failed == s.failed + if rejected then {m[n]} else {}
         else
           && exit == Failure && t.failed == s.failed
           && CommonLength(a, m) < n <= |a| && t.active == a[..n]
           && a[n - 1] != null && !env.disconnect(a[n - 1], t.asked - 1)
  }

  lemma ReorganisingEnds(env: Environment, s: State, t: State, exit: Exit)
    requires WellFormed(s) && s.mostWork != [] && ReorganiseStep(env, s, t, exit)
    ensures EndsAtAnswer(env, s, t, exit)
  {
    hide Linked, Ancestor, IsPath, Tree, CommonLength, Disconnects, Connects;
    var a, m, n, k := s.active, s.mostWork, |t.active|, CommonLength(s.active, s.mostWork);
    CommonLengthShares(a, m);
    if DisconnectFails(env, s, t, k) && n < |m| {
      assert t.active[k] == a[k] && m[..n][k] == m[k] && a[k] != m[k];
    }
  }

  lemma EndsAlike(env: Environment, s: State, u: State, t: State, exit: Exit)
    requires s.active == u.active && s.mostWork == u.mostWork && s.failed == u.failed
    ensures EndsAtAnswer(env, s, t, exit) == EndsAtAnswer(env, u, t, exit)
  {
  }

  lemma FreeRoundEnds(env: Environment, final: Hash, b: BlockIndex?, r: Round)
    requires IsRound(env, final, b, r) && r.searched.mostWork != [] && !IsHeld(env, final, r.searched)
    ensures EndsAtAnswer(env, r.searched, r.end, r.exit)
  {
    hide Linked, Ancestor, IsPath, CommonLength, Tree, Tainted, MostWork, ReorganiseStep, FinalityWalk, Drops,
         AsksForLocal, AsksForRoot, DistinctHashes, EndsAtAnswer;
    var u := r.searched;
    PathHasDistinctHashes(u.Blocks(), u.active);
    WalkIs(env, final, u.active, u.mostWork, |u.active|, u.localFin, u.asked);
    var w := FinalityWalk(env, final, u.active, u.mostWork, |u.active|, u.localFin, u.asked);
    var v := u.(localFin := w.localFin, asked := w.asked);
    ReorganisingEnds(env, v, r.end, r.exit);
    EndsAlike(env, v, u, r.end, r.exit);
  }

  ghost predicate DisconnectedAt(env: Environment, c: BlockIndex, n0: nat, n1: nat) {
    exists n | n0 <= n < n1 :: env.disconnect(c, n)
  }

  ghost predicate AcceptedAt(env: Environment, c: BlockIndex, n0: nat, n1: nat) {
    exists n | n0 <= n < n1 :: env.connect(c, n) == Accept
  }

  lemma LeavesAndJoins(env: Environment, s: State, t: State, exit: Exit, c: BlockIndex)
    requires WellFormed(s) && s.mostWork != [] && ReorganiseStep(env, s, t, exit)
    ensures Holds(s.active, c) && !Holds(t.active, c) ==> DisconnectedAt(env, c, s.asked, t.asked)
    ensures !Holds(s.active, c) && Holds(t.active, c) ==> AcceptedAt(env, c, s.asked, t.asked)
  {
    hide Linked, Ancestor, IsPath, Tree, CommonLength;
    var a, m, k, h := s.active, s.mostWork, CommonLength(s.active, s.mostWork), c.height;
    CommonLengthShares(a, m);
    if Holds(a, c) && !Holds(t.active, c) {
      assert env.disconnect(a[h], s.asked + |a| - 1 - h);
    } else if !Holds(a, c) && Holds(t.active, c) {
      assert k <= h;
      assert env.connect(m[h], s.asked + |a| - k + h - k) == Accept;
    }
  }

  // A block leaves the active chain only by a successful disconnect, and joins it only by being accepted.
  lemma RoundMoves(env: Environment, final: Hash, b: BlockIndex?, r: Round, c: BlockIndex)
    requires IsRound(env, final, b, r)
    ensures Holds(r.start.active, c) && !Holds(r.end.active, c) ==> DisconnectedAt(env, c, r.start.asked, r.end.asked)
    ensures !Holds(r.start.active, c) && Holds(r.end.active, c) ==> AcceptedAt(env, c, r.start.asked, r.end.asked)
  {
    hide Linked, Ancestor, IsPath, Tree, CommonLength, MostWork, Tainted, Disconnects, Connects, FinalityWalk,
         ReorganiseStep;
    var u := r.searched;
    var w := FinalityWalk(env, final, u.active, u.mostWork, |u.active|, u.localFin, u.asked);
    WalkPassesNoFinal(env, final, u.active, u.mostWork, |u.active|, u.localFin, u.asked);
    if u.mostWork != [] && !w.held {
      LeavesAndJoins(env, u.(localFin := w.localFin, asked := w.asked), r.end, r.exit, c);
    }
  }

  lemma TaintedIsJustified(env: Environment, active: Path, failed0: set<BlockIndex>, failed1: set<BlockIndex>,
                           c: BlockIndex)
    requires failed0 <= failed1 && (Rejected(env, c) || Tainted(active, failed0, c))
    ensures FlagJustified(env, failed1, c)
  {
  }

  // Flags are only added, each to a block that was found invalid or descends from a flagged one.
  lemma RoundJustifiesFlags(env: Environment, final: Hash, b: BlockIndex?, r: Round)
    requires IsRound(env, final, b, r)
    ensures Reasonable(env, r.start.failed, r.end.failed)
  {
    hide Linked, Ancestor, IsPath, CommonLength, Tree, MostWork, FinalityWalk, Disconnects, Connects, FlagJustified;
    RoundFrame(env, final, b, r);
    forall c <- r.end.failed - r.start.failed
      ensures FlagJustified(env, r.end.failed, c)
    {
      TaintedIsJustified(env, r.start.active, r.start.failed, r.end.failed, c);
    }
  }

  // A retry has strictly fewer candidates, also if the rejected block had been flagged before.
  lemma RetryHasFewerCandidates(env: Environment, final: Hash, b: BlockIndex?, r: Round)
    requires IsRound(env, final, b, r) && r.exit == Retry
    ensures |r.end.Candidates()| < |r.start.Candidates()|
  {
    hide Linked, Ancestor, IsPath, CommonLength, Tree, MostWork, FinalityWalk, Disconnects, Connects, Tainted;
    RoundFrame(env, final, b, r);
    var u := r.searched;
    var k := CommonLength(u.active, u.mostWork);
    assert k <= |r.end.active| < |u.mostWork|;
    SlotParent(u.mostWork, |u.mostWork| - 1);
    RejectionProgress(env, u.Blocks(), u.active, r.start.mostWork, u.mostWork, r.start.failed, u.failed,
                      |r.end.active|);
    assert r.end.failed == u.failed + {u.mostWork[|r.end.active|]};
  }

  // Some question from n0 up to n1 was answered by a failure.
  ghost predicate SomethingFailed(env: Environment, blocks: set<BlockIndex>, n0: nat, n1: nat) {
    exists c <- blocks, n | n0 <= n < n1 :: env.connect(c, n) == SystemFailure || !env.disconnect(c, n)
  }

  // A final block among those that a has above the fork with m.
  ghost predicate DropsFinal(final: Hash, local: BlockIndex?, a: Path, m: Path) {
    exists i :: CommonLength(a, m) <= i < |a| && a[i] != null && a[0] != null && local != null
                && (a[i].hash == final || a[i].hash == local.hash || a[i].hash == a[0].hash)
  }

  // With nothing to do there is no candidate; on completion no candidate is better than the tip that both
  // chains have.
  lemma RoundCompletes(env: Environment, final: Hash, b: BlockIndex?, r: Round)
    requires IsRound(env, final, b, r)
    ensures r.exit == NothingToDo ==> r.end.mostWork == [] && r.end.Candidates() == {}
    ensures r.exit == Complete ==>
              && r.end.active == r.end.mostWork != []
              && forall c <- r.end.Candidates() :: LastOf(r.end.active) != null && !Less(LastOf(r.end.active), c)
  {
    hide Linked, Ancestor, IsPath, CommonLength, Tree, MostWork, Tainted, Disconnects, Connects, FinalityWalk;
    var u := r.searched;
    SearchedTipIsGreatest(r.start, u);
    assert r.exit == Complete ==> r.end.Candidates() == u.Candidates() && r.end.active == r.end.mostWork == u.mostWork;
  }

  // A round that finality ends would have dropped a final block.
  lemma RoundIsHeld(env: Environment, final: Hash, b: BlockIndex?, r: Round)
    requires IsRound(env, final, b, r) && r.exit == FinalityHeld
    ensures DropsFinal(final, r.start.LocalFin(), r.start.active, r.end.mostWork)
  {
    hide Linked, Ancestor, IsPath, CommonLength, Tree, MostWork, Tainted, Disconnects, Connects, FinalityWalk;
    var u := r.searched;
    WalkIsHeldByFinal(env, final, u.active, u.mostWork, |u.active|, u.localFin, u.asked);
  }

  lemma FailedAt(env: Environment, blocks: set<BlockIndex>, n0: nat, n1: nat, c: BlockIndex, n: nat)
    requires c in blocks && n0 <= n < n1 && (env.connect(c, n) == SystemFailure || !env.disconnect(c, n))
    ensures SomethingFailed(env, blocks, n0, n1)
  {
  }

  lemma ReorganisingFails(env: Environment, s: State, t: State, n0: nat)
    requires WellFormed(s) && s.mostWork != [] && ReorganiseStep(env, s, t, Failure) && n0 <= s.asked
    ensures SomethingFailed(env, s.Blocks(), n0, t.asked)
  {
    hide Linked, Ancestor, IsPath, CommonLength, Tree, Disconnects, Connects, SomethingFailed;
    var a, m, j := s.active, s.mostWork, |t.active|;
    if DisconnectFails(env, s, t, CommonLength(a, m)) {
      SlotParent(a, |a| - 1);
      PathInTree(s.Blocks(), a, j - 1);
      FailedAt(env, s.Blocks(), n0, t.asked, a[j - 1], s.asked + |a| - j);
    } else {
      SlotParent(m, |m| - 1);
      PathInTree(s.Blocks(), m, j);
      FailedAt(env, s.Blocks(), n0, t.asked, m[j], t.asked - 1);
    }
  }

  // A call fails only if some question was answered so.
  lemma RoundFails(env: Environment, final: Hash, b: BlockIndex?, r: Round)
    requires IsRound(env, final, b, r) && (b != null ==> b in r.start.Blocks()) && r.exit == Failure
    ensures SomethingFailed(env, r.start.Blocks(), r.start.asked, r.end.asked)
  {
    hide Linked, Ancestor, IsPath, CommonLength, Tree, MostWork, Tainted, Disconnects, Connects, FinalityWalk, Holds,
         SomethingFailed;
    var u, n1 := r.searched, r.end.asked;
    var w := FinalityWalk(env, final, u.active, u.mostWork, |u.active|, u.localFin, u.asked);
    WalkPassesNoFinal(env, final, u.active, u.mostWork, |u.active|, u.localFin, u.asked);
    if w.held {
      FailedAt(env, r.start.Blocks(), r.start.asked, n1, b, w.asked);
    } else {
      ReorganisingFails(env, u.(localFin := w.localFin, asked := w.asked), r.end, r.start.asked);
    }
  }

  // ---- A whole call ---------------------------------------------------------------------------------

  // Over the rounds of a call the index stays, questions are only added, and flags are only added, each for a
  // reason; every retry uses up a candidate.
  lemma {:induction false} CallFrame(env: Environment, final: Hash, b: BlockIndex?, rounds: seq<Round>, n: nat)
    requires IsCall(env, final, b, rounds) && n < |rounds|
    ensures var s, t := rounds[0].start, rounds[n].end;
            && t.index == s.index && t.nextId == s.nextId && s.asked <= rounds[n].start.asked <= t.asked
            && rounds[n].start.index == s.index
            && Reasonable(env, s.failed, t.failed)
            && n + |rounds[n].start.Candidates()| <= |s.Candidates()|
  {
    hide IsRound, Reasonable;
    RoundFrame(env, final, b, rounds[n]);
    RoundJustifiesFlags(env, final, b, rounds[n]);
    if n > 0 {
      CallFrame(env, final, b, rounds, n - 1);
      ReasonableTransitive(env, rounds[0].start.failed, rounds[n].start.failed, rounds[n].end.failed);
      RetryHasFewerCandidates(env, final, b, rounds[n - 1]);
    }
  }

  // How a call ends, whatever blocks were rejected on the way: with nothing to do there is no candidate; on
  // completion no candidate is better than the tip that both chains have; finality and failure have their
  // reasons.
  lemma CallOutcome(env: Environment, final: Hash, b: BlockIndex?, rounds: seq<Round>)
    requires IsCall(env, final, b, rounds) && (b != null ==> b in rounds[0].start.Blocks())
    ensures var last := rounds[|rounds| - 1];
            var t := last.end;
            && (last.exit == NothingToDo ==> t.mostWork == [] && t.Candidates() == {})
            && (last.exit == Complete ==>
                  && t.active == t.mostWork != [] && LastOf(t.active) != null
                  && forall c <- t.Candidates() :: !Less(LastOf(t.active), c))
            && (last.exit == FinalityHeld ==> DropsFinal(final, last.start.LocalFin(), last.start.active, t.mostWork))
            && (last.exit == Failure ==> SomethingFailed(env, t.Blocks(), rounds[0].start.asked, t.asked))
  {
    var n := |rounds| - 1;
    var last := rounds[n];
    CallFrame(env, final, b, rounds, n);
    RoundCompletes(env, final, b, last);
    if last.exit == FinalityHeld {
      RoundIsHeld(env, final, b, last);
    } else if last.exit == Failure {
      RoundFails(env, final, b, last);
      RoundFrame(env, final, b, last);
    } else if last.exit == Complete {
      SlotParent(last.end.active, |last.end.active| - 1);
    }
  }

  // After a completed call every other candidate is lower than the active tip, or as high and received later, or
  // also numbered alike and at a higher address.
  lemma TipWins(env: Environment, final: Hash, b: BlockIndex?, rounds: seq<Round>, c: BlockIndex)
    requires IsCall(env, final, b, rounds) && (b != null ==> b in rounds[0].start.Blocks())
    requires rounds[|rounds| - 1].exit == Complete && c in rounds[|rounds| - 1].end.Candidates()
    ensures var tip := LastOf(rounds[|rounds| - 1].end.active);
            tip != null && (c != tip ==>
              || c.height < tip.height
              || (c.height == tip.height && c.sequenceId > tip.sequenceId)
              || (c.height == tip.height && c.sequenceId == tip.sequenceId && c.address > tip.address))
  {
    hide IsPath, Linked, Ancestor, SearchStep, AfterSearch;
    CallOutcome(env, final, b, rounds);
    assert IsRound(env, final, b, rounds[|rounds| - 1]);
  }
}
