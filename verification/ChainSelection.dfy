// Chain selection over the block tree (src/main.cpp).

module ChainSelection {
  import opened BlockTree
  import opened SkipList
  import opened BlockChain
  import opened SelectionRules
  import opened Activation
  import opened ActivationLaws
  import opened ChainEvents
  import opened SearchPasses

  // AddToBlockIndex refuses a block it has, or inserts it and, if it can be written, answers what
  // ActivateBestChain answers.
  datatype AddResult = Duplicate | NotWritten | Added(ok: bool, exit: Exit)

  datatype InvalidateResult = Invalidated | NotDisconnected | NotWritten

  // ---- How far the loops have come, on values --------------------------------------------------------

  // FindMostWorkChain, once the best candidate is known.
  lemma SearchDone(s: State, t: State, best: BlockIndex?)
    requires WellFormed(t) && t == s.(mostWork := t.mostWork, failed := t.failed) && s.failed <= t.failed
    requires forall b <- t.failed - s.failed :: Tainted(s.active, s.failed, b)
    requires if best == null then t.Candidates() == {}
             else IsGreatest(best, t.Candidates()) && Clean(s.active, t.failed, best)
    requires var kept := Trimmed(s.mostWork, s.failed);
             if best == null || (LastOf(kept) != null && !Less(LastOf(kept), best)) then t.mostWork == kept
             else LastOf(t.mostWork) == best
    ensures SearchStep(s, t)
  {
  }

  lemma StaysExact(blocks: set<BlockIndex>, failed: set<BlockIndex>, above: set<BlockIndex>)
    ensures blocks - failed - above == blocks - (failed + above)
  {
  }

  // A pass of the loop of FindMostWorkChain that is not stuck.
  lemma PassIsTaken(blocks: set<BlockIndex>, active: Path, s0: Search, s: Search, best: BlockIndex, failed: BlockIndex)
    requires s0.candidates <= blocks && SweptBy(active, s0, s)
    requires Tree(blocks) && best in blocks && IsPath(active) && !Stuck(active, s) && IsGreatest(best, s.candidates)
    requires Linked(best) && FirstFlag(active, s.failed, best, best.height) >= 0
    requires failed == Ancestor(best, FirstFlag(active, s.failed, best, best.height))
    ensures var above, f := Above(best, failed.height), FirstFlag(active, s.failed, best, best.height);
            && IsAncestor(failed, best) && failed in s.failed && failed.height == f
            && var t := Search(s.candidates - above, s.failed + above);
               && !Stuck(active, t) && |t.candidates - t.failed| < |s.candidates - s.failed|
               && (s.candidates == blocks - s.failed ==> t.candidates == blocks - t.failed)
               && SweptBy(active, s0, t)
  {
    hide Stuck, IsPath, Tree, Clean, Above, FirstFlag, Linked, Ancestor, SharesAt, SweptBy;
    var f := FirstFlag(active, s.failed, best, best.height);
    AncestorInTree(blocks, best, f);
    InTree(blocks, failed);
    NoFlagIsClean(active, s.failed, best);
    BestIsUnflagged(active, s, best);
    BestIsDropped(active, s, best);
    NotStuckLater(active, s, best);
    StaysExact(blocks, s.failed, Above(best, failed.height));
    PassSweeps(blocks, active, s0, s, best);
  }

  // The loop that takes the flagged end off the path m0 has come to m, and the candidates to c.
  ghost predicate Trimming(m0: Path, failed: set<BlockIndex>, m: Path, c0: set<BlockIndex>, c: set<BlockIndex>) {
    m <= m0 && Trimmed(m, failed) == Trimmed(m0, failed) && c == c0 - From(m0, |m|)
  }

  lemma NothingTrimmed(m0: Path, failed: set<BlockIndex>, c0: set<BlockIndex>)
    ensures Trimming(m0, failed, m0, c0, c0)
  {
  }

  lemma TrimmingStep(m0: Path, failed: set<BlockIndex>, m: Path, c0: set<BlockIndex>, c: set<BlockIndex>)
    requires Trimming(m0, failed, m, c0, c) && LastOf(m) != null && LastOf(m) in failed
    ensures Trimming(m0, failed, m[..|m| - 1], c0, c - {LastOf(m)})
  {
    TrimmedStep(m, failed);
    FromStep(m0, |m| - 1);
  }

  lemma TrimmingEnds(m0: Path, failed: set<BlockIndex>, m: Path, c0: set<BlockIndex>, c: set<BlockIndex>)
    requires Trimming(m0, failed, m, c0, c) && (m == [] || LastOf(m) !in failed)
    ensures m == Trimmed(m0, failed) && c == c0 - FlaggedEnd(m0, failed)
  {
    TrimmedIsAll(m, failed);
  }

  // The active chain s.active is disconnected down to height n.
  ghost predicate Disconnecting(env: Environment, s: State, t: State, n: nat) {
    && n <= |s.active| && Disconnects(env, s.active, s.asked, n)
    && t == s.(active := s.active[..n], asked := s.asked + |s.active| - n)
  }

  // The test of the first inner loop tells the blocks above the fork from those below.
  lemma ForkTest(a: Path, m: Path, n: nat)
    requires IsPath(a) && IsPath(m) && n <= |a|
    ensures n > 0 ==> a[n - 1] != null && (Holds(m, a[n - 1]) <==> n <= CommonLength(a, m))
  {
    if n > 0 {
      SlotParent(a, n - 1);
      HeldIsCommon(a, m, n - 1);
    }
  }

  lemma NothingDisconnected(env: Environment, s: State)
    ensures Disconnecting(env, s, s, |s.active|)
  {
  }

  lemma DisconnectingStep(env: Environment, s: State, t: State, n: nat, k: nat, ok: bool, u: State)
    requires Disconnecting(env, s, t, n) && k < n && s.active[n - 1] != null
    requires ok == env.disconnect(s.active[n - 1], t.asked)
    requires u == t.(active := if ok then s.active[..n - 1] else t.active, asked := t.asked + 1)
    ensures if ok then Disconnecting(env, s, u, n - 1) else DisconnectFails(env, s, u, k)
  {
  }

  // The same for InvalidateBlock, which flags and writes p and what it disconnects.
  ghost predicate Invalidating(env: Environment, s: State, p: BlockIndex, t: State, n: nat) {
    && n <= |s.active| && Disconnects(env, s.active, s.asked, n)
    && (if Holds(s.active, p) then n >= p.height else n == |s.active|)
    && t == s.(active := s.active[..n], asked := s.asked + |s.active| - n, failed := s.failed + {p} + From(s.active, n),
               writes := s.writes + 1 + |s.active| - n)
    && Writes(env, s.writes, t.writes)
  }

  lemma InvalidatingStarts(env: Environment, s: State, p: BlockIndex)
    ensures env.written(s.writes) ==>
              Invalidating(env, s, p, s.(failed := s.failed + {p}, writes := s.writes + 1), |s.active|)
    ensures !env.written(s.writes) ==> InvalidateBreaks(env, s, p, s.(failed := s.failed + {p}, writes := s.writes + 1))
  {
  }

  lemma InvalidatingPart(env: Environment, s: State, p: BlockIndex, t: State, n: nat)
    requires Invalidating(env, s, p, t, n)
    ensures n <= |s.active| && t.active == s.active[..n]
  {
  }

  lemma InvalidatingBreaks(env: Environment, s: State, p: BlockIndex, t: State, n: nat, u: State)
    requires Invalidating(env, s, p, t, n) && 0 < n && Holds(t.active, p)
    requires s.active[n - 1] != null && !env.written(t.writes)
    requires u == t.(failed := t.failed + {s.active[n - 1]}, writes := t.writes + 1)
    ensures InvalidateBreaks(env, s, p, u)
  {
    FromStep(s.active, n - 1);
  }

  lemma InvalidatingStep(env: Environment, s: State, p: BlockIndex, t: State, n: nat, ok: bool, u: State)
    requires Invalidating(env, s, p, t, n) && 0 < n && Holds(t.active, p)
    requires s.active[n - 1] != null && ok == env.disconnect(s.active[n - 1], t.asked) && env.written(t.writes)
    requires u == t.(active := if ok then s.active[..n - 1] else t.active, asked := t.asked + 1,
                     failed := t.failed + {s.active[n - 1]}, writes := t.writes + 1)
    ensures if ok then Invalidating(env, s, p, u, n - 1) else InvalidateStep(env, s, p, u, false)
  {
    FromStep(s.active, n - 1);
  }

  lemma InvalidatingEnds(env: Environment, s: State, p: BlockIndex, t: State, n: nat)
    requires Invalidating(env, s, p, t, n) && !Holds(t.active, p)
    ensures InvalidateStep(env, s, p, t, true)
  {
  }

  // What InvalidateBlock has taken off the candidates.
  lemma InvalidatingCandidates(env: Environment, s: State, p: BlockIndex, t: State, n: nat)
    requires Invalidating(env, s, p, t, n)
    ensures t.Candidates() == s.Candidates() - ({p} + From(s.active, n)) && t.writes > s.writes
  {
  }

  // chainMostWork is connected from s on up to height n.
  ghost predicate Connecting(env: Environment, s: State, t: State, n: nat) {
    && |s.active| <= n <= |s.mostWork| && Connects(env, s.mostWork, s.asked, |s.active|, n)
    && t == s.(active := s.mostWork[..n], asked := s.asked + n - |s.active|)
  }

  lemma NothingConnected(env: Environment, s: State)
    requires s.active <= s.mostWork
    ensures Connecting(env, s, s, |s.active|)
  {
  }

  lemma ConnectingStep(env: Environment, s: State, t: State, n: nat, verdict: Verdict, u: State)
    requires Connecting(env, s, t, n) && n < |s.mostWork| && s.mostWork[n] != null
    requires verdict == env.connect(s.mostWork[n], t.asked)
    requires u == t.(active := t.active + if verdict == Accept then [s.mostWork[n]] else [], asked := t.asked + 1,
                     failed := t.failed + if verdict == Reject then {s.mostWork[n]} else {})
    ensures verdict == Accept ==> Connecting(env, s, u, n + 1)
    ensures verdict == Reject ==> ConnectStep(env, s, u, Retry)
    ensures verdict == SystemFailure ==> ConnectStep(env, s, u, Failure)
  {
  }

  lemma ConnectingEnds(env: Environment, s: State, t: State)
    requires Connecting(env, s, t, |s.mostWork|)
    ensures ConnectStep(env, s, t, Complete)
  {
  }

  // The rounds so far, from start to now; exit is how the last one ended.
  ghost predicate RoundsSoFar(env: Environment, final: Hash, b: BlockIndex?, rounds: seq<Round>, start: State,
                              now: State, exit: Exit)
  {
    && (if rounds == [] then exit == Retry && now == start
        else rounds[0].start == start && rounds[|rounds| - 1].end == now && rounds[|rounds| - 1].exit == exit)
    && (forall i | 0 <= i < |rounds| :: IsRound(env, final, b, rounds[i]))
    && (forall i | 0 <= i < |rounds| - 1 :: rounds[i].exit == Retry && rounds[i].end == rounds[i + 1].start)
  }

  lemma NoRounds(env: Environment, final: Hash, b: BlockIndex?, start: State)
    ensures RoundsSoFar(env, final, b, [], start, start, Retry)
  {
  }

  lemma RoundsGoOn(env: Environment, final: Hash, b: BlockIndex?, rounds: seq<Round>, start: State, round: Round)
    requires RoundsSoFar(env, final, b, rounds, start, round.start, Retry) && IsRound(env, final, b, round)
    ensures RoundsSoFar(env, final, b, rounds + [round], start, round.end, round.exit)
  {
    hide IsRound;
  }

  lemma RoundsEnd(env: Environment, final: Hash, b: BlockIndex?, rounds: seq<Round>, start: State, now: State,
                  exit: Exit)
    requires RoundsSoFar(env, final, b, rounds, start, now, exit) && exit != Retry
    ensures IsActivation(env, final, start, b, rounds, now) && exit == rounds[|rounds| - 1].exit
  {
  }

  lemma OutcomeOf(env: Environment, final: Hash, s: State, b: BlockIndex?, rounds: seq<Round>, t: State)
    requires IsActivation(env, final, s, b, rounds, t) && (b != null ==> b in s.Blocks())
    ensures rounds != []
    ensures var exit := rounds[|rounds| - 1].exit;
            && (exit == NothingToDo ==> t.mostWork == [] && t.Candidates() == {})
            && (exit == Complete ==>
                  && t.active == t.mostWork != [] && LastOf(t.active) != null
                  && forall c <- t.Candidates() :: !Less(LastOf(t.active), c))
  {
    CallOutcome(env, final, b, rounds);
  }

  // One more block of p's way back.
  lemma WayBackStep(p: BlockIndex, h: nat)
    requires Linked(p) && h <= p.height
    ensures Above(p, p.height) == {}
    ensures Above(p, h) + {Ancestor(p, h)} == if h == 0 then WayBack(p) else Above(p, h - 1)
  {
  }

  lemma AncestorsAreTaken(s: State, p: BlockIndex, children: bool, h: nat)
    requires Linked(p) && h <= p.height
    ensures TakenInOrder(s, p, children, s.failed * ((if children then Descendants(s.Blocks(), p) else {})
                                                     + Above(p, h) + {Ancestor(p, h)}))
  {
  }

  // One more element, set by set.
  lemma OneMore(a: set<BlockIndex>, b: set<BlockIndex>, x: BlockIndex)
    ensures (a + b) + {x} == a + (b + {x})
    ensures a - (b + {x}) == (a - b) - {x}
    ensures x in a ==> a * (b + {x}) == a * b + {x}
    ensures x !in a ==> a * (b + {x}) == a * b && a - (b + {x}) == a - b
    ensures a - (a - b) == a * b
  {
  }

  lemma RelativesAre(s: State, p: BlockIndex, children: bool)
    requires Linked(p)
    ensures Relatives(s, p, children) == (if children then Descendants(s.Blocks(), p) else {}) + WayBack(p)
  {
  }

  lemma NextOnWayBack(p: BlockIndex, index: BlockIndex, below: set<BlockIndex>, done: set<BlockIndex>)
    requires Linked(p) && index.height <= p.height && index == Ancestor(p, index.height)
    requires done == below + Above(p, index.height)
    ensures index.pprev != null ==> index.pprev.height < index.height && index.pprev == Ancestor(p, index.pprev.height)
    ensures done + {index} == below + if index.pprev == null then WayBack(p) else Above(p, index.pprev.height)
  {
    hide Above, WayBack;
    WayBackStep(p, index.height);
    AncestorParent(p, index.height);
    OneMore(below, Above(p, index.height), index);
  }

  lemma AncestorTest(b: BlockIndex, p: BlockIndex, a: BlockIndex?)
    requires Linked(b) && a == if p.height <= b.height then Ancestor(b, p.height) else null
    ensures a == p <==> IsAncestor(p, b)
  {
  }

  // ReconsiderBlock has cleared the flags of done.
  ghost predicate Reconsidering(env: Environment, s: State, done: set<BlockIndex>, t: State) {
    && s.writes <= t.writes && Writes(env, s.writes, t.writes)
    && t == s.(failed := s.failed - done, writes := s.writes + |s.failed * done|)
  }

  lemma NothingReconsidered(env: Environment, s: State)
    ensures Reconsidering(env, s, {}, s)
  {
    assert s.failed - {} == s.failed && s.failed * {} == {};
  }

  lemma ReconsideringSkips(env: Environment, s: State, done: set<BlockIndex>, t: State, b: BlockIndex)
    requires Reconsidering(env, s, done, t) && b !in t.failed
    ensures Reconsidering(env, s, done + {b}, t)
  {
    OneMore(s.failed, done, b);
    assert b in done ==> done + {b} == done;
  }

  lemma ReconsideringStep(env: Environment, s: State, p: BlockIndex, children: bool, done: set<BlockIndex>, t: State,
                          b: BlockIndex, u: State)
    requires Reconsidering(env, s, done, t) && b in t.failed
    requires u == t.(failed := t.failed - {b}, writes := t.writes + 1)
    ensures env.written(t.writes) ==> Reconsidering(env, s, done + {b}, u)
    ensures !env.written(t.writes) && Linked(p) && TakenInOrder(s, p, children, s.failed * (done + {b})) ==>
              ReconsiderBreaks(env, s, p, children, u)
    ensures s.failed - u.failed == s.failed * done + {b} && b !in s.failed * done
  {
    OneMore(s.failed, done, b);
    assert u.failed == s.failed - (done + {b});
    OneMore(s.failed, done + {b}, b);
  }

  lemma DescendantsAreTaken(s: State, p: BlockIndex, some: set<BlockIndex>, b: BlockIndex)
    requires Linked(p) && Linked(b) && IsAncestor(p, b) && some <= s.Blocks() && b in s.Blocks()
    ensures TakenInOrder(s, p, true, s.failed * (Descendants(some, p) + {b}))
  {
  }

  lemma Reconsidered(env: Environment, s: State, p: BlockIndex, children: bool, t: State)
    requires Linked(p) && Reconsidering(env, s, Relatives(s, p, children), t)
    ensures ReconsiderStep(env, s, p, children, t)
  {
  }

  lemma Inserted(s: State, hash: Hash, prevHash: Hash, address: nat, b: BlockIndex, t: State)
    requires hash !in s.index && b !in s.Blocks()
    requires t == s.(index := s.index[hash := b], nextId := t.nextId, writes := s.writes + 1)
    requires b.hash == hash && b.address == address && b.sequenceId == s.nextId
    requires t.nextId == (s.nextId + 1) % 0x1_0000_0000
    requires b.pprev == if prevHash in s.index then s.index[prevHash] else null
    requires b.height == if b.pprev == null then 0 else b.pprev.height + 1
    ensures InsertStep(s, hash, prevHash, address, b, t)
  {
  }

  class ChainState {
    const env: Environment
    const chainActive: Chain
    const chainMostWork: Chain
    var mapBlockIndex: map<Hash, BlockIndex>
    var setBlockIndexValid: set<BlockIndex>
    var localFinIndex: BlockIndex?       // CPBFTMan's local finality block
    var globalFinHash: Hash              // what GetGlobalFinBlockHash answers
    var nextSequenceId: nat              // nBlockSequenceId, a 32-bit counter
    var asked: nat                       // the number of questions put to the environment
    var writes: nat                      // the number of writes of entries
    ghost var blocks: set<BlockIndex>    // all entries of mapBlockIndex

    ghost function Failed(): set<BlockIndex>
      reads this`blocks, blocks
    {
      set b <- blocks | b.Failed()
    }

    // The state as a value.
    ghost function Snapshot(): State
      reads this`mapBlockIndex, this`localFinIndex, this`asked, this`nextSequenceId, this`writes, this`blocks, blocks
      reads chainActive, chainMostWork
    {
      State(mapBlockIndex, chainActive.vChain, chainMostWork.vChain, Failed(), localFinIndex, asked, nextSequenceId,
            writes)
    }

    // The index is a tree, and both chains are paths in it.
    ghost predicate Valid()
      reads this`blocks, this`mapBlockIndex, chainActive, chainMostWork
    {
      && chainActive != chainMostWork
      && Indexed(mapBlockIndex, blocks)
      && Tree(blocks) && SkipsBuiltIn(blocks)
      && chainActive.Valid() && (chainActive.Tip() != null ==> chainActive.Tip() in blocks)
      && chainMostWork.Valid() && (chainMostWork.Tip() != null ==> chainMostWork.Tip() in blocks)
    }

    // The candidates are exactly the blocks that are not flagged.
    ghost predicate CandidatesExact()
      reads this`blocks, this`setBlockIndexValid, blocks
    {
      setBlockIndexValid == blocks - Failed()
    }

    constructor (env: Environment, globalFinHash: Hash)
      ensures Valid() && CandidatesExact() && mapBlockIndex == map[] && blocks == {}
      ensures chainActive.vChain == chainMostWork.vChain == []
      ensures this.env == env && this.globalFinHash == globalFinHash && localFinIndex == null
      ensures Snapshot() == Initial()
      ensures fresh(chainActive) && fresh(chainMostWork)
    {
      this.env, this.globalFinHash, localFinIndex, asked := env, globalFinHash, null, 0;
      nextSequenceId, writes := 1, 0;
      chainActive := new Chain();
      chainMostWork := new Chain();
      mapBlockIndex, setBlockIndexValid, blocks := map[], {}, {};
    }

    // The walk of FindMostWorkChain from a candidate towards the active chain: the first flagged block.
    method FirstFailed(b: BlockIndex) returns (failed: BlockIndex?)
      requires Valid() && b in blocks
      ensures Linked(b)
      ensures var f := FirstFlag(chainActive.vChain, Failed(), b, b.height);
              if f < 0 then failed == null else failed == Ancestor(b, f) && failed.height == f
    {
      hide Linked, Ancestor, IsPath, SkipsBuiltIn, Indexed, Tree;
      InTree(blocks, b);
      var test: BlockIndex? := b;
      ghost var f := FirstFlag(chainActive.vChain, Failed(), b, b.height);
      while test != null && !chainActive.Contains(test)
        invariant test != null ==> test.height <= b.height && test == Ancestor(b, test.height)
        invariant f == FirstFlag(chainActive.vChain, Failed(), b, if test == null then -1 else test.height)
        decreases if test == null then 0 else test.height + 1
      {
        AncestorInTree(blocks, b, test.height);
        if test.Failed() {
          return test;
        }
        AncestorParent(b, test.height);
        test := test.pprev;
      }
      return null;
    }

    // The flagging loop of FindMostWorkChain.
    method FlagChildren(b: BlockIndex, failed: BlockIndex)
      requires Valid() && b in blocks && IsAncestor(failed, b)
      modifies this`setBlockIndexValid, blocks`failedChild
      ensures Failed() == old(Failed()) + Above(b, failed.height)
      ensures setBlockIndexValid == old(setBlockIndexValid) - Above(b, failed.height)
    {
      hide Linked, Ancestor, IsPath, SkipsBuiltIn, SharesAt, Indexed;
      var index: BlockIndex := b;
      while index != failed
        invariant Linked(index) && failed.height <= index.height <= b.height && index == Ancestor(b, index.height)
        invariant Failed() == old(Failed()) + Above(b, index.height)
        invariant setBlockIndexValid == old(setBlockIndexValid) - Above(b, index.height)
        decreases index.height
      {
        AncestorInTree(blocks, b, index.height);
        AncestorParent(b, index.height);
        ghost var before, above := Failed(), Above(b, index.height);
        WayBackStep(b, index.height);
        index.failedChild := true;
        assert Failed() == before + {index} == old(Failed()) + (above + {index});
        setBlockIndexValid := setBlockIndexValid - {index};
        index := index.pprev;
      }
    }

    // CBlockIndexWorkComparator's greatest candidate, which is setBlockIndexValid.rbegin().
    method Greatest() returns (b: BlockIndex)
      requires Valid() && setBlockIndexValid <= blocks && setBlockIndexValid != {}
      ensures IsGreatest(b, setBlockIndexValid) && b in blocks
    {
      ghost var g := GreatestExists(blocks, setBlockIndexValid);
      b :| IsGreatest(b, setBlockIndexValid);
    }

    lemma InFailed(b: BlockIndex)
      requires b in blocks
      ensures b in Failed() <==> b.Failed()
    {
    }

    // First half of FindMostWorkChain: the flagged upper end of chainMostWork is taken off.
    method TrimMostWork()
      requires Valid()
      modifies this`setBlockIndexValid, chainMostWork
      ensures Valid()
      ensures chainMostWork.vChain == Trimmed(old(chainMostWork.vChain), Failed())
      ensures setBlockIndexValid == old(setBlockIndexValid) - FlaggedEnd(old(chainMostWork.vChain), Failed())
    {
      hide Linked, Ancestor, IsPath, SkipsBuiltIn, SharesAt, Tree, Indexed, Trimmed, Failed, FlaggedEnd;
      ghost var before, candidates, failed := chainMostWork.vChain, setBlockIndexValid, Failed();
      NothingTrimmed(before, failed, candidates);
      while chainMostWork.Tip() != null && chainMostWork.Tip().Failed()
        invariant Valid() && Trimming(before, failed, chainMostWork.vChain, candidates, setBlockIndexValid)
        decreases |chainMostWork.vChain|
      {
        ghost var path := chainMostWork.vChain;
        ParentPath(path);
        InFailed(chainMostWork.Tip());
        TrimmingStep(before, failed, path, candidates, setBlockIndexValid);
        InTree(blocks, chainMostWork.Tip());
        setBlockIndexValid := setBlockIndexValid - {chainMostWork.Tip()};
        var _ := chainMostWork.SetTip(chainMostWork.Tip().pprev);
        SamePath(chainMostWork.vChain, path[..|path| - 1]);
      }
      if chainMostWork.vChain != [] {
        SlotParent(chainMostWork.vChain, |chainMostWork.vChain| - 1);
        InFailed(chainMostWork.Tip());
      }
      TrimmingEnds(before, failed, chainMostWork.vChain, candidates, setBlockIndexValid);
    }

    // What the loop of FindMostWorkChain works on.
    ghost function ToSearch(): Search
      reads this`blocks, this`setBlockIndexValid, blocks
    {
      Search(setBlockIndexValid, Failed())
    }

    // Second half: the greatest candidate with a clean way back to the active chain; the tainted ones
    // found on the way are flagged and dropped. If the loop would be stuck the source never ends.
    method BestCandidate() returns (best: BlockIndex?)
      requires Valid() && setBlockIndexValid <= blocks && !Stuck(chainActive.vChain, ToSearch())
      modifies this`setBlockIndexValid, blocks`failedChild
      ensures Valid() && (old(CandidatesExact()) ==> CandidatesExact())
      ensures old(Failed()) <= Failed()
      ensures forall b <- Failed() - old(Failed()) :: Tainted(chainActive.vChain, old(Failed()), b)
      ensures SweptBy(chainActive.vChain, old(ToSearch()), ToSearch())
      ensures if best == null then setBlockIndexValid == {}
              else
                && best in blocks && Linked(best)
                && IsGreatest(best, setBlockIndexValid) && Clean(chainActive.vChain, Failed(), best)
    {
      hide Linked, Ancestor, IsPath, SkipsBuiltIn, SharesAt, Tainted, Clean, Tree, Indexed, IsAncestor, Above, Stuck,
           FirstFlag, Failed, IsGreatest, SweptBy;
      ghost var start, exact := ToSearch(), CandidatesExact();
      NothingSwept(chainActive.vChain, start);
      while setBlockIndexValid != {}
        invariant Valid() && setBlockIndexValid <= blocks && !Stuck(chainActive.vChain, ToSearch())
        invariant exact ==> ToSearch().candidates == blocks - ToSearch().failed
        invariant SweptBy(chainActive.vChain, start, ToSearch())
        decreases |setBlockIndexValid - Failed()|
      {
        best := Greatest();
        var failed := FirstFailed(best);
        NoFlagIsClean(chainActive.vChain, Failed(), best);
        if failed == null {
          SweptIsTainted(chainActive.vChain, start, ToSearch());
          return;
        }
        ghost var before := ToSearch();
        PassIsTaken(blocks, chainActive.vChain, start, before, best, failed);
        FlagChildren(best, failed);
        ghost var above := Above(best, failed.height);
        assert ToSearch() == Search(before.candidates - above, before.failed + above);
      }
      SweptIsTainted(chainActive.vChain, start, ToSearch());
      return null;
    }

    // Snapshots of a valid state are well-formed.
    lemma SnapshotIsWellFormed()
      requires Valid()
      ensures WellFormed(Snapshot()) && Snapshot().Blocks() == blocks
      ensures CandidatesExact() ==> Snapshot().Candidates() == setBlockIndexValid
    {
    }

    lemma NoTipNoPath()
      requires Valid()
      ensures chainMostWork.Tip() == null <==> chainMostWork.vChain == []
    {
      if chainMostWork.vChain != [] {
        SlotParent(chainMostWork.vChain, |chainMostWork.vChain| - 1);
      }
    }

    // What the loop of FindMostWorkChain will work on, once chainMostWork is trimmed.
    ghost function TrimmedSearch(): Search
      reads this`blocks, this`setBlockIndexValid, blocks, chainMostWork
    {
      Search(setBlockIndexValid - FlaggedEnd(chainMostWork.vChain, Failed()), Failed())
    }

    lemma ExactIsNotStuck()
      requires Valid() && CandidatesExact()
      ensures setBlockIndexValid <= blocks && !Stuck(chainActive.vChain, TrimmedSearch())
      ensures setBlockIndexValid - FlaggedEnd(chainMostWork.vChain, Failed()) == setBlockIndexValid
    {
      EndIsFlagged(chainMostWork.vChain, Failed());
      UnflaggedIsNotStuck(chainActive.vChain, TrimmedSearch());
    }

    // FindMostWorkChain, under the condition under which it ends.
    method FindMostWorkChain()
      requires Valid() && setBlockIndexValid <= blocks && !Stuck(chainActive.vChain, TrimmedSearch())
      modifies this`setBlockIndexValid, chainMostWork, blocks`failedChild
      ensures Valid()
      ensures old(CandidatesExact()) ==> CandidatesExact() && SearchStep(old(Snapshot()), Snapshot())
      ensures SweptBy(chainActive.vChain, old(TrimmedSearch()), ToSearch())
    {
      hide SweptBy;
      hide Linked, Ancestor, IsPath, SkipsBuiltIn, SharesAt, Tainted, Clean, Tree, Indexed, Failed, Trimmed, SearchStep,
           WellFormed;
      ghost var s, exact := Snapshot(), CandidatesExact();
      if exact {
        ExactIsNotStuck();
      }
      TrimMostWork();
      NoTipNoPath();
      var best := BestCandidate();
      if best != null && (chainMostWork.Tip() == null || Less(chainMostWork.Tip(), best)) {
        var _ := chainMostWork.SetTip(best);
      }
      SnapshotIsWellFormed();
      if exact {
        SearchDone(s, Snapshot(), best);
      }
    }

    // CPBFTMan::GetLocalFinIndex
    function GetLocalFinIndex(): BlockIndex?
      reads this`localFinIndex, chainActive
    {
      if localFinIndex != null then localFinIndex else chainActive.At(0)
    }

    // DisconnectTip
    method DisconnectTip() returns (ok: bool)
      requires Valid() && chainActive.Tip() != null
      modifies this`asked, chainActive
      ensures Valid()
      ensures chainActive.vChain ==
                if ok then old(chainActive.vChain)[..|old(chainActive.vChain)| - 1] else old(chainActive.vChain)
      ensures asked == old(asked) + 1 && ok == env.disconnect(old(chainActive.Tip()), old(asked))
    {
      hide Linked, Ancestor, IsPath, SkipsBuiltIn, SharesAt, Tree, Indexed;
      ghost var before := chainActive.vChain;
      ParentPath(before);
      InTree(blocks, chainActive.Tip());
      ok := env.disconnect(chainActive.Tip(), asked);
      asked := asked + 1;
      if ok {
        var _ := chainActive.SetTip(chainActive.Tip().pprev);
        SamePath(chainActive.vChain, before[..|before| - 1]);
      }
    }

    // ConnectTip, with InvalidBlockFound for a block that ConnectBlock rejects. The first precondition
    // is the assertion at its head.
    method ConnectTip(b: BlockIndex) returns (verdict: Verdict)
      requires b.pprev == chainActive.Tip()
      requires Valid() && b in blocks && CandidatesExact()
      modifies this`asked, this`setBlockIndexValid, chainActive, b`failedValid
      ensures Valid() && CandidatesExact()
      ensures asked == old(asked) + 1 && verdict == env.connect(b, old(asked))
      ensures chainActive.vChain == old(chainActive.vChain) + if verdict == Accept then [b] else []
      ensures Failed() == old(Failed()) + if verdict == Reject then {b} else {}
    {
      hide Linked, Ancestor, IsPath, SkipsBuiltIn, SharesAt, Tree, Indexed;
      ghost var before := chainActive.vChain;
      InTree(blocks, b);
      verdict := env.connect(b, asked);
      asked := asked + 1;
      match verdict {
        case Accept =>
          var _ := chainActive.SetTip(b);
          ParentPath(chainActive.vChain);
          SamePath(chainActive.vChain[..|chainActive.vChain| - 1], before);
          assert chainActive.vChain == before + [b];
        case Reject =>
          b.failedValid := true;
          setBlockIndexValid := setBlockIndexValid - {b};
        case SystemFailure =>
      }
    }

    // The finality test of ActivateBestChain: the active blocks that chainMostWork would drop are
    // looked at from the tip down.
    method FinalityHolds() returns (held: bool)
      requires Valid()
      modifies this`localFinIndex, this`asked
      ensures Finality(held, localFinIndex, asked)
           == FinalityWalk(env, globalFinHash, chainActive.vChain, chainMostWork.vChain, |chainActive.vChain|,
                           old(localFinIndex), old(asked))
    {
      hide Linked, Ancestor, IsPath, SkipsBuiltIn, Tree, Indexed;
      ghost var a, m := chainActive.vChain, chainMostWork.vChain;
      var height := chainActive.Height();
      while height >= 0
        invariant -1 <= height < |a|
        invariant FinalityWalk(env, globalFinHash, a, m, |a|, old(localFinIndex), old(asked))
               == FinalityWalk(env, globalFinHash, a, m, height + 1, localFinIndex, asked)
      {
        SlotParent(a, height);
        var b: BlockIndex := chainActive.At(height);
        if chainMostWork.Contains(b) {
          break;
        }
        var fin := GetLocalFinIndex();
        if fin != null && b.hash == fin.hash {
          var timedOut := env.localFinTimedOut(asked);
          asked := asked + 1;
          if !timedOut {
            return true;
          }
          localFinIndex := chainActive.At(0);
        }
        if b.hash == globalFinHash {
          return true;
        }
        height := height - 1;
      }
      return false;
    }

    // The first inner loop of ActivateBestChain.
    method DisconnectToFork() returns (ok: bool)
      requires Valid()
      modifies this`asked, chainActive
      ensures Valid()
      ensures var k := CommonLength(old(chainActive.vChain), chainMostWork.vChain);
              if ok then Disconnecting(env, old(Snapshot()), Snapshot(), k)
              else DisconnectFails(env, old(Snapshot()), Snapshot(), k)
    {
      hide Linked, Ancestor, IsPath, SkipsBuiltIn, SharesAt, Tree, Indexed, CommonLength, Disconnects, DisconnectFails,
           Failed;
      ghost var a, k := chainActive.vChain, CommonLength(chainActive.vChain, chainMostWork.vChain);
      ghost var s := Snapshot();
      NothingDisconnected(env, s);
      while chainActive.Tip() != null && !chainMostWork.Contains(chainActive.Tip())
        invariant Valid() && k <= |chainActive.vChain|
        invariant Disconnecting(env, s, Snapshot(), |chainActive.vChain|)
        decreases |chainActive.vChain|
      {
        ghost var t, n := Snapshot(), |chainActive.vChain|;
        ForkTest(a, chainMostWork.vChain, n);
        ok := DisconnectTip();
        assert ok ==> chainActive.vChain == a[..n - 1];
        DisconnectingStep(env, s, t, n, k, ok, Snapshot());
        if !ok {
          return false;
        }
      }
      ForkTest(a, chainMostWork.vChain, |chainActive.vChain|);
      return true;
    }

    // The second inner loop of ActivateBestChain.
    method ConnectToMostWork() returns (exit: Exit)
      requires Valid() && CandidatesExact()
      requires chainMostWork.Tip() != null && chainActive.vChain <= chainMostWork.vChain
      modifies this`asked, this`setBlockIndexValid, chainActive, blocks`failedValid
      ensures Valid() && CandidatesExact()
      ensures ConnectStep(env, old(Snapshot()), Snapshot(), exit)
    {
      hide Linked, Ancestor, IsPath, SkipsBuiltIn, SharesAt, Tree, Indexed, Failed, Connects, ConnectStep;
      ghost var s, m := Snapshot(), chainMostWork.vChain;
      NothingConnected(env, s);
      SlotParent(m, |m| - 1);
      while !chainActive.Contains(chainMostWork.Tip())
        invariant Valid() && CandidatesExact() && Connecting(env, s, Snapshot(), |chainActive.vChain|)
        decreases |m| - |chainActive.vChain|
      {
        ghost var t, n := Snapshot(), |chainActive.vChain|;
        var next := chainMostWork.At(chainActive.Height() + 1);
        assert n < |m|;
        PathInTree(blocks, m, n);
        SlotParent(m, n);
        var verdict := ConnectTip(next);
        ConnectingStep(env, s, t, n, verdict, Snapshot());
        if verdict != Accept {
          return if verdict == Reject then Retry else Failure;
        }
      }
      ConnectingEnds(env, s, Snapshot());
      return Complete;
    }

    // ConnectBlockOnFinChain
    method ConnectBlockOnFinChain(newIndex: BlockIndex?) returns (ok: bool)
      requires Valid() && CandidatesExact() && (newIndex != null ==> newIndex in blocks)
      modifies this`asked, this`setBlockIndexValid, chainActive, blocks`failedValid
      ensures Valid() && CandidatesExact()
      ensures FinBlockStep(env, old(Snapshot()), newIndex, Snapshot(), ok)
    {
      if newIndex != null && chainActive.Tip() == newIndex.pprev {
        var verdict := ConnectTip(newIndex);
        return verdict != SystemFailure;
      }
      return true;
    }

    // The two inner loops of ActivateBestChain.
    method Reorganise() returns (exit: Exit)
      requires Valid() && CandidatesExact() && chainMostWork.Tip() != null
      modifies this`asked, this`setBlockIndexValid, chainActive, blocks`failedValid
      ensures Valid() && CandidatesExact()
      ensures ReorganiseStep(env, old(Snapshot()), Snapshot(), exit)
    {
      hide Linked, Ancestor, IsPath, SkipsBuiltIn, SharesAt, Tree, Indexed, CommonLength, Failed, Disconnects,
           DisconnectFails, ConnectStep;
      ghost var a, m := chainActive.vChain, chainMostWork.vChain;
      var ok := DisconnectToFork();
      if !ok {
        return Failure;
      }
      ForkIsCommon(a, chainActive.vChain, m);
      hide Connects;
      exit := ConnectToMostWork();
    }

    // One round of the outer loop of ActivateBestChain.
    method OneRound(newIndex: BlockIndex?) returns (exit: Exit, ghost round: Round)
      requires Valid() && CandidatesExact() && (newIndex != null ==> newIndex in blocks)
      modifies this`asked, this`setBlockIndexValid, this`localFinIndex, chainActive, chainMostWork
      modifies blocks`failedValid, blocks`failedChild
      ensures Valid() && CandidatesExact()
      ensures IsRound(env, globalFinHash, newIndex, round) && round.exit == exit
      ensures round.start == old(Snapshot()) && round.end == Snapshot()
    {
      hide Linked, Ancestor, IsPath, SkipsBuiltIn, SharesAt, Tree, Indexed, Failed, FinalityWalk, FinBlockStep,
           ReorganiseStep, SearchStep, WellFormed;
      ghost var start := Snapshot();
      SnapshotIsWellFormed();
      FindMostWorkChain();
      ghost var searched := Snapshot();
      SnapshotIsWellFormed();
      NoTipNoPath();
      if chainMostWork.Tip() == null {
        return NothingToDo, Round(start, searched, searched, NothingToDo);
      }
      var held := FinalityHolds();
      if held {
        var ok := ConnectBlockOnFinChain(newIndex);
        exit := if ok then FinalityHeld else Failure;
      } else {
        exit := Reorganise();
      }
      SnapshotIsWellFormed();
      round := Round(start, searched, Snapshot(), exit);
    }

    // ActivateBestChain; the ghost result holds its rounds.
    method ActivateBestChain(newIndex: BlockIndex?) returns (ok: bool, exit: Exit, ghost rounds: seq<Round>)
      requires Valid() && CandidatesExact() && (newIndex != null ==> newIndex in blocks)
      modifies this`asked, this`setBlockIndexValid, this`localFinIndex, chainActive, chainMostWork
      modifies blocks`failedValid, blocks`failedChild
      ensures Valid() && CandidatesExact()
      ensures IsActivation(env, globalFinHash, old(Snapshot()), newIndex, rounds, Snapshot())
      ensures exit == rounds[|rounds| - 1].exit && exit != Retry && ok == (exit != Failure)
      // Whatever was rejected on the way: on completion no candidate is better than the tip of both chains.
      ensures exit == NothingToDo ==> chainMostWork.vChain == [] && setBlockIndexValid == {}
      ensures exit == Complete ==>
                && chainActive.vChain == chainMostWork.vChain && chainActive.Tip() != null
                && forall c <- setBlockIndexValid :: !Less(chainActive.Tip(), c)
    {
      hide Linked, Ancestor, IsPath, SkipsBuiltIn, SharesAt, Tree, Indexed, Failed, IsRound, WellFormed;
      hide RoundsSoFar, IsActivation;
      ghost var start := Snapshot();
      rounds := [];
      exit := Retry;
      NoRounds(env, globalFinHash, newIndex, start);
      while exit == Retry
        invariant Valid() && CandidatesExact()
        invariant RoundsSoFar(env, globalFinHash, newIndex, rounds, start, Snapshot(), exit)
        decreases if exit == Retry then 1 + |setBlockIndexValid| else 0
      {
        ghost var round;
        SnapshotIsWellFormed();
        exit, round := OneRound(newIndex);
        SnapshotIsWellFormed();
        if exit == Retry {
          RetryHasFewerCandidates(env, globalFinHash, newIndex, round);
        }
        RoundsGoOn(env, globalFinHash, newIndex, rounds, start, round);
        rounds := rounds + [round];
      }
      SnapshotIsWellFormed();
      RoundsEnd(env, globalFinHash, newIndex, rounds, start, Snapshot(), exit);
      OutcomeOf(env, globalFinHash, start, newIndex, rounds, Snapshot());
      ok := exit != Failure;
    }

    method InvalidateBlockIndex(b: BlockIndex) returns (ok: bool)
      requires Valid() && b in blocks
      modifies this`setBlockIndexValid, this`writes, b`failedValid
      ensures ok == env.written(old(writes)) && writes == old(writes) + 1 && Failed() == old(Failed()) + {b}
      ensures setBlockIndexValid == old(setBlockIndexValid) - if ok then {b} else {}
    {
      b.failedValid := true;
      ok := env.written(writes);
      writes := writes + 1;
      if ok {
        setBlockIndexValid := setBlockIndexValid - {b};
      }
    }

    // What InvalidateBlock, begun with s, leaves at a failing write: what was written before it is off the
    // candidates, and the last block is flagged and as before.
    ghost predicate Broken(s: State, p: BlockIndex)
      reads this`mapBlockIndex, this`localFinIndex, this`asked, this`nextSequenceId, this`writes, this`blocks, blocks
      reads this`setBlockIndexValid, chainActive, chainMostWork
    {
      && InvalidateBreaks(env, s, p, Snapshot())
      && setBlockIndexValid == s.Candidates() - if writes == s.writes + 1 then {}
                               else {p} + From(s.active, |chainActive.vChain|)
    }

    // The loop of InvalidateBlock, begun with s, with the active tip.
    method InvalidateTip(ghost s: State, ghost p: BlockIndex) returns (r: InvalidateResult)
      requires Valid() && CandidatesExact() && chainActive.Contains(p)
      requires Invalidating(env, s, p, Snapshot(), |chainActive.vChain|)
      modifies this`asked, this`setBlockIndexValid, this`writes, chainActive, blocks`failedValid
      ensures Valid()
      ensures r == Invalidated ==>
                && CandidatesExact() && |chainActive.vChain| < |old(chainActive.vChain)|
                && Invalidating(env, s, p, Snapshot(), |chainActive.vChain|)
      ensures r == NotDisconnected ==> CandidatesExact() && InvalidateStep(env, s, p, Snapshot(), false)
      ensures r == InvalidateResult.NotWritten ==> Broken(s, p)
    {
      hide Linked, Ancestor, IsPath, SkipsBuiltIn, SharesAt, Tree, Indexed, From, Failed, Disconnects, InvalidateStep,
           Invalidating, InvalidateBreaks, Holds;
      ghost var t, n := Snapshot(), |chainActive.vChain|;
      SlotParent(chainActive.vChain, n - 1);
      InvalidatingPart(env, s, p, t, n);
      InvalidatingCandidates(env, s, p, t, n);
      SnapshotIsWellFormed();
      var tip: BlockIndex := chainActive.Tip();
      var ok := InvalidateBlockIndex(tip);
      if !ok {
        InvalidatingBreaks(env, s, p, t, n, Snapshot());
        return InvalidateResult.NotWritten;
      }
      ok := DisconnectTip();
      InvalidatingStep(env, s, p, t, n, ok, Snapshot());
      r := if ok then Invalidated else NotDisconnected;
    }

    // InvalidateBlock; its three ways to end.
    method InvalidateBlock(p: BlockIndex) returns (r: InvalidateResult)
      requires Valid() && CandidatesExact() && p in blocks
      modifies this`asked, this`setBlockIndexValid, this`writes, chainActive, blocks`failedValid
      ensures Valid()
      ensures r != InvalidateResult.NotWritten ==>
                CandidatesExact() && InvalidateStep(env, old(Snapshot()), p, Snapshot(), r == Invalidated)
      ensures r == Invalidated ==> !chainActive.Contains(p)
      ensures r == InvalidateResult.NotWritten ==> Broken(old(Snapshot()), p)
    {
      hide Linked, Ancestor, IsPath, SkipsBuiltIn, SharesAt, Tree, Indexed, From, Failed, Disconnects, InvalidateStep,
           Invalidating, InvalidateBreaks;
      ghost var s := Snapshot();
      SnapshotIsWellFormed();
      var ok := InvalidateBlockIndex(p);
      InvalidatingStarts(env, s, p);
      if !ok {
        return InvalidateResult.NotWritten;
      }
      assert Invalidating(env, s, p, Snapshot(), |chainActive.vChain|);
      while chainActive.Contains(p)
        invariant Valid() && CandidatesExact()
        invariant Invalidating(env, s, p, Snapshot(), |chainActive.vChain|)
        decreases |chainActive.vChain|
      {
        r := InvalidateTip(s, p);
        if r != Invalidated {
          return;
        }
      }
      InvalidatingEnds(env, s, p, Snapshot(), |chainActive.vChain|);
      return Invalidated;
    }

    method ReconsiderBlockIndex(b: BlockIndex) returns (ok: bool)
      requires Valid() && b in blocks
      modifies this`setBlockIndexValid, this`writes, b`failedValid, b`failedChild
      ensures Valid() && ok == env.written(old(writes)) && Failed() == old(Failed()) - {b}
      ensures Snapshot() == old(Snapshot()).(failed := Failed(), writes := old(writes) + 1)
      ensures setBlockIndexValid == old(setBlockIndexValid) + if ok then {b} else {}
    {
      b.failedValid, b.failedChild := false, false;
      ok := env.written(writes);
      writes := writes + 1;
      if ok {
        setBlockIndexValid := setBlockIndexValid + {b};
      }
    }

    // The candidates are the unflagged blocks but for one that has just lost its flags.
    ghost predicate LacksOne(failed0: set<BlockIndex>, stray: BlockIndex?)
      reads this`blocks, this`setBlockIndexValid, blocks
    {
      stray in failed0 - Failed() && setBlockIndexValid == blocks - Failed() - {stray}
    }

    // The same inside the loops of ReconsiderBlock, which began with s and have done some blocks.
    method ReconsiderNext(b: BlockIndex, ghost s: State, ghost p: BlockIndex, ghost children: bool,
                          ghost done: set<BlockIndex>)
      returns (ok: bool)
      requires Valid() && CandidatesExact() && b in blocks && b.Failed()
      requires Linked(p) && TakenInOrder(s, p, children, s.failed * (done + {b}))
      requires Reconsidering(env, s, done, Snapshot())
      modifies this`setBlockIndexValid, this`writes, b`failedValid, b`failedChild
      ensures Valid()
      ensures ok ==> CandidatesExact() && Reconsidering(env, s, done + {b}, Snapshot())
      ensures !ok ==> ReconsiderBreaks(env, s, p, children, Snapshot()) && LacksOne(s.failed, b)
    {
      hide Linked, Ancestor, IsPath, SharesAt, SkipsBuiltIn, Tree, Indexed, TakenInOrder, Reconsidering,
           ReconsiderBreaks, Failed;
      ghost var t := Snapshot();
      InFailed(b);
      ok := ReconsiderBlockIndex(b);
      ReconsideringStep(env, s, p, children, done, t, b, Snapshot());
    }

    // The body of the first loop of ReconsiderBlock, which began with s and has seen some blocks.
    method ReconsiderIfBelow(b: BlockIndex, ghost s: State, p: BlockIndex, ghost seen: set<BlockIndex>)
      returns (ok: bool)
      requires Valid() && CandidatesExact() && b in blocks && seen <= blocks == s.Blocks()
      requires Linked(p) && Reconsidering(env, s, Descendants(seen, p), Snapshot())
      modifies this`setBlockIndexValid, this`writes, b`failedValid, b`failedChild
      ensures Valid()
      ensures ok ==> CandidatesExact() && Reconsidering(env, s, Descendants(seen + {b}, p), Snapshot())
      ensures !ok ==> ReconsiderBreaks(env, s, p, true, Snapshot()) && LacksOne(s.failed, b)
    {
      hide Linked, Ancestor, IsPath, SharesAt, SkipsBuilt, SkipsBuiltIn, Tree, Indexed, IsAncestor, Descendants, Failed,
           Reconsidering, ReconsiderBreaks, TakenInOrder;
      SkipsBuiltAt(blocks, b);
      InFailed(b);
      ghost var done := Descendants(seen, p);
      DescendantsStep(seen, p, b);
      assert done + {} == done;
      ok := true;
      if b.Failed() {
        var a, _ := GetAncestor(b, p.height);
        AncestorTest(b, p, a);
        if a == p {
          DescendantsAreTaken(s, p, seen, b);
          ok := ReconsiderNext(b, s, p, true, done);
        }
      } else {
        ReconsideringSkips(env, s, done, Snapshot(), b);
      }
    }

    // The first loop of ReconsiderBlock.
    method ReconsiderDescendants(p: BlockIndex) returns (ok: bool, ghost stray: BlockIndex?)
      requires Valid() && CandidatesExact() && p in blocks
      modifies this`setBlockIndexValid, this`writes, blocks`failedValid, blocks`failedChild
      ensures Valid() && Linked(p)
      ensures ok ==> CandidatesExact() && Reconsidering(env, old(Snapshot()), Descendants(blocks, p), Snapshot())
      ensures !ok ==> ReconsiderBreaks(env, old(Snapshot()), p, true, Snapshot()) && LacksOne(old(Failed()), stray)
    {
      hide Linked, Ancestor, IsPath, SharesAt, SkipsBuilt, SkipsBuiltIn, Tree, Indexed, IsAncestor, Descendants, Failed,
           Reconsidering, ReconsiderBreaks, TakenInOrder;
      InTree(blocks, p);
      ghost var s := Snapshot();
      DescendantsStep({}, p, p);
      NothingReconsidered(env, s);
      SameIndex(mapBlockIndex, blocks);
      var todo := mapBlockIndex.Values;
      ghost var seen: set<BlockIndex> := {};
      while todo != {}
        invariant Valid() && CandidatesExact() && seen + todo == blocks
        invariant Reconsidering(env, s, Descendants(seen, p), Snapshot())
        decreases todo
      {
        var b :| b in todo;
        ok := ReconsiderIfBelow(b, s, p, seen);
        if !ok {
          return false, b;
        }
        todo, seen := todo - {b}, seen + {b};
      }
      assert seen == blocks;
      return true, null;
    }

    // ReconsiderBlock: exactly p's ancestors, p, and on request its descendants lose their flags. At a failing
    // write the last block has lost them and is still no candidate.
    method ReconsiderBlock(p: BlockIndex, children: bool) returns (ok: bool, ghost stray: BlockIndex?)
      requires Valid() && CandidatesExact() && p in blocks
      modifies this`setBlockIndexValid, this`writes, blocks`failedValid, blocks`failedChild
      ensures Valid()
      ensures ok ==> CandidatesExact() && ReconsiderStep(env, old(Snapshot()), p, children, Snapshot())
      ensures !ok ==> ReconsiderBreaks(env, old(Snapshot()), p, children, Snapshot()) && LacksOne(old(Failed()), stray)
    {
      hide Linked, Ancestor, IsPath, SharesAt, SkipsBuilt, Descendants, Above, WayBack, ReconsiderStep, Reconsidering,
           ReconsiderBreaks, Relatives, TakenInOrder, Failed;
      InTree(blocks, p);
      ghost var s := Snapshot();
      NothingReconsidered(env, s);
      ghost var done: set<BlockIndex> := {};
      if children {
        ok, stray := ReconsiderDescendants(p);
        if !ok {
          return;
        }
        done := Descendants(blocks, p);
      }
      ghost var below := done;
      var index: BlockIndex? := p;
      WayBackStep(p, p.height);
      assert below + {} == below;
      while index != null
        invariant Valid() && CandidatesExact()
        invariant index != null ==> index in blocks && index.height <= p.height && index == Ancestor(p, index.height)
        invariant done == below + if index == null then WayBack(p) else Above(p, index.height)
        invariant Reconsidering(env, s, done, Snapshot())
        decreases if index == null then 0 else index.height + 1
      {
        InTree(blocks, index);
        AncestorsAreTaken(s, p, children, index.height);
        InFailed(index);
        ghost var t := Snapshot();
        if index.Failed() {
          ok := ReconsiderNext(index, s, p, children, done);
          if !ok {
            return false, index;
          }
        } else {
          ReconsideringSkips(env, s, done, t, index);
        }
        NextOnWayBack(p, index, below, done);
        done := done + {index};
        index := index.pprev;
      }
      RelativesAre(s, p, children);
      Reconsidered(env, s, p, children, Snapshot());
      return true, null;
    }

    // The entry that AddToBlockIndex makes, with its links. The address stands for what operator new returns.
    method NewEntry(hash: Hash, prevHash: Hash, address: nat) returns (b: BlockIndex)
      requires Valid()
      ensures fresh(b) && b.hash == hash && b.address == address && b.sequenceId == nextSequenceId && !b.Failed()
      ensures b.pprev == if prevHash in mapBlockIndex then mapBlockIndex[prevHash] else null
      ensures b.pprev != null ==> b.pprev in blocks
      ensures b.height == if b.pprev == null then 0 else b.pprev.height + 1
      ensures Linked(b) && SkipsBuilt(b)
    {
      hide Linked, Ancestor, IsPath, SharesAt, SkipsBuilt, SkipsBuiltIn, GetSkipHeight, Tree, Indexed;
      var prev: BlockIndex? := null;
      var skip: BlockIndex? := null;
      if prevHash in mapBlockIndex {
        prev := mapBlockIndex[prevHash];
        IndexedAt(mapBlockIndex, blocks, prevHash);
        SkipsBuiltAt(blocks, prev);
        skip := BuildSkip(prev);
      }
      b := new BlockIndex(hash, address, nextSequenceId, prev, skip);
      SkipsExtend(b);
    }

    // The part of AddToBlockIndex before ActivateBestChain; ok says whether the entry could be written. No live
    // entry has its address.
    method InsertBlock(hash: Hash, prevHash: Hash, address: nat) returns (b: BlockIndex, ok: bool)
      requires Valid() && CandidatesExact() && hash !in mapBlockIndex
      requires forall c <- blocks :: c.address != address
      modifies this`mapBlockIndex, this`setBlockIndexValid, this`nextSequenceId, this`blocks, this`writes
      ensures Valid() && CandidatesExact() && ok == env.written(old(writes))
      ensures fresh(b) && b.hash == hash && b.address == address && b.sequenceId == old(nextSequenceId) && !b.Failed()
      ensures b.pprev == if prevHash in old(mapBlockIndex) then old(mapBlockIndex)[prevHash] else null
      ensures b.height == if b.pprev == null then 0 else b.pprev.height + 1
      ensures nextSequenceId == (old(nextSequenceId) + 1) % 0x1_0000_0000
      ensures mapBlockIndex == old(mapBlockIndex)[hash := b] && blocks == old(blocks) + {b}
      ensures Failed() == old(Failed())
      ensures InsertStep(old(Snapshot()), hash, prevHash, address, b, Snapshot())
    {
      hide Linked, Ancestor, IsPath, SharesAt, SkipsBuilt, SkipsBuiltIn, GetSkipHeight, InsertStep, Tree, Indexed;
      IndexedAt(mapBlockIndex, blocks, hash);
      b := NewEntry(hash, prevHash, address);
      nextSequenceId := (nextSequenceId + 1) % 0x1_0000_0000;
      SkipsBuiltInMore(blocks, b);
      TreeGrows(blocks, b);
      IndexGrows(mapBlockIndex, blocks, b);
      SameIndex(mapBlockIndex, blocks);
      mapBlockIndex := mapBlockIndex[hash := b];
      blocks := blocks + {b};
      setBlockIndexValid := setBlockIndexValid + {b};
      ok := env.written(writes);
      writes := writes + 1;
      Inserted(old(Snapshot()), hash, prevHash, address, b, Snapshot());
    }

    // AddToBlockIndex; the ghost results are the new entry and the rounds of ActivateBestChain.
    method AddToBlockIndex(hash: Hash, prevHash: Hash, address: nat)
      returns (r: AddResult, ghost b: BlockIndex?, ghost rounds: seq<Round>)
      requires Valid() && CandidatesExact()
      requires forall c <- blocks :: c.address != address
      modifies this`mapBlockIndex, this`setBlockIndexValid, this`nextSequenceId, this`blocks, this`asked
      modifies this`writes, this`localFinIndex, chainActive, chainMostWork, blocks`failedValid, blocks`failedChild
      ensures Valid() && CandidatesExact()
      ensures r == Duplicate <==> old(hash in mapBlockIndex)
      ensures r == Duplicate ==> b == null && rounds == [] && Snapshot() == old(Snapshot()) && blocks == old(blocks)
      ensures r == AddResult.NotWritten <==> !old(hash in mapBlockIndex || env.written(writes))
      ensures r == AddResult.NotWritten ==>
                && b != null && fresh(b) && blocks == old(blocks) + {b} && rounds == []
                && InsertStep(old(Snapshot()), hash, prevHash, address, b, Snapshot())
      ensures r.Added? ==>
                && b != null && fresh(b) && blocks == old(blocks) + {b} && rounds != []
                && InsertStep(old(Snapshot()), hash, prevHash, address, b, rounds[0].start)
                && IsActivation(env, globalFinHash, rounds[0].start, b, rounds, Snapshot())
                && r.exit == rounds[|rounds| - 1].exit && r.ok == (r.exit != Failure)
                && (r.exit == NothingToDo ==> chainMostWork.vChain == [] && setBlockIndexValid == {})
                && (r.exit == Complete ==>
                      && chainActive.vChain == chainMostWork.vChain && chainActive.Tip() != null
                      && forall c <- setBlockIndexValid :: !Less(chainActive.Tip(), c))
    {
      if hash in mapBlockIndex {
        return Duplicate, null, [];
      }
      hide Linked, Ancestor, IsPath, SkipsBuiltIn, SharesAt, Tree, Indexed, IsCall, InsertStep, Failed;
      var newIndex, ok := InsertBlock(hash, prevHash, address);
      if !ok {
        return AddResult.NotWritten, newIndex, [];
      }
      var exit;
      ok, exit, rounds := ActivateBestChain(newIndex);
      return Added(ok, exit), newIndex, rounds;
    }
  }
}
