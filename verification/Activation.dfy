// ActivateBestChain (src/main.cpp) as a relation between values: what one round of its outer loop makes of
// a state, answer by answer, and what every sequence of rounds keeps.

module Activation {
  import opened BlockTree
  import opened BlockChain
  import opened SelectionRules

  function LocalOrRoot(localFin: BlockIndex?, active: Path): BlockIndex? {
    if localFin != null then localFin else if active == [] then null else active[0]
  }

  // Everything that chain selection looks at. The failure flags are a set of entries here.
  datatype State = State(index: map<Hash, BlockIndex>, active: Path, mostWork: Path, failed: set<BlockIndex>,
                         localFin: BlockIndex?, asked: nat, nextId: nat, writes: nat)
  {
    ghost function Blocks(): set<BlockIndex> {
      index.Values
    }

    // The candidates are the blocks that are not flagged.
    ghost function Candidates(): set<BlockIndex> {
      index.Values - failed
    }

    // CPBFTMan::GetLocalFinIndex
    ghost function LocalFin(): BlockIndex? {
      LocalOrRoot(localFin, active)
    }
  }

  ghost predicate WellFormed(s: State) {
    && Tree(s.Blocks()) && s.failed <= s.Blocks() && (forall h <- s.index :: s.index[h].hash == h)
    && IsPath(s.active) && (LastOf(s.active) != null ==> LastOf(s.active) in s.Blocks())
    && IsPath(s.mostWork) && (LastOf(s.mostWork) != null ==> LastOf(s.mostWork) in s.Blocks())
  }

  // FindMostWorkChain
  ghost predicate SearchStep(s: State, t: State) {
    && WellFormed(t) && t == s.(mostWork := t.mostWork, failed := t.failed)
    && s.failed <= t.failed && (forall b <- t.failed - s.failed :: Tainted(s.active, s.failed, b))
    && MostWork(s.active, s.failed, t.failed, s.Blocks(), s.mostWork, t.mostWork)
  }

  datatype Finality = Finality(held: bool, localFin: BlockIndex?, asked: nat)

  // The walk over the active blocks below n, from the top down to chainMostWork. A local final block that
  // has timed out gives way to the root.
  ghost function FinalityWalk(env: Environment, final: Hash, a: Path, m: Path, n: nat, localFin: BlockIndex?,
                              asked: nat): Finality
    requires n <= |a|
  {
    if n == 0 || a[n - 1] == null || Holds(m, a[n - 1]) then Finality(false, localFin, asked)
    else
      var local := LocalOrRoot(localFin, a);
      var met := local != null && a[n - 1].hash == local.hash;
      if met && !env.localFinTimedOut(asked) then Finality(true, localFin, asked + 1)
      else
        var rest := if met then (a[0], asked + 1) else (localFin, asked);
        if a[n - 1].hash == final then Finality(true, rest.0, rest.1)
        else FinalityWalk(env, final, a, m, n - 1, rest.0, rest.1)
  }

  // The blocks of a from height k on are disconnected, the tip first, with question number n.
  ghost predicate Disconnects(env: Environment, a: Path, n: nat, k: nat) {
    forall i | k <= i < |a| :: a[i] != null && env.disconnect(a[i], n + |a| - 1 - i)
  }

  // The blocks of m from height lo up to hi are connected, the first with question number n.
  ghost predicate Connects(env: Environment, m: Path, n: nat, lo: nat, hi: nat)
    requires hi <= |m|
  {
    forall i | lo <= i < hi :: m[i] != null && env.connect(m[i], n + i - lo) == Accept
  }

  // Disconnecting towards height k fails at some block above it.
  ghost predicate DisconnectFails(env: Environment, s: State, t: State, k: nat) {
    var a, j := s.active, |t.active|;
    && k < j <= |a| && Disconnects(env, a, s.asked, j)
    && a[j - 1] != null && !env.disconnect(a[j - 1], s.asked + |a| - j)
    && t == s.(active := a[..j], asked := s.asked + |a| - j + 1)
  }

  // The second inner loop, from an active chain that is a part of chainMostWork.
  ghost predicate ConnectStep(env: Environment, s: State, t: State, exit: Exit) {
    var m, lo, hi := s.mostWork, |s.active|, |t.active|;
    && lo <= hi <= |m| && Connects(env, m, s.asked, lo, hi)
    && if hi == |m| then exit == Complete && t == s.(active := m, asked := s.asked + hi - lo)
       else && m[hi] != null && env.connect(m[hi], s.asked + hi - lo) != Accept
            && var rejected := env.connect(m[hi], s.asked + hi - lo) == Reject;
               && exit == (if rejected then Retry else Failure)
               && t == s.(active := m[..hi], asked := s.asked + hi - lo + 1,
                          failed := s.failed + if rejected then {m[hi]} else {})
  }

  // Both inner loops.
  ghost predicate ReorganiseStep(env: Environment, s: State, t: State, exit: Exit) {
    var a, k := s.active, CommonLength(s.active, s.mostWork);
    || (exit == Failure && DisconnectFails(env, s, t, k))
    || (Disconnects(env, a, s.asked, k) && ConnectStep(env, s.(active := a[..k], asked := s.asked + |a| - k), t, exit))
  }

  // ConnectBlockOnFinChain
  ghost predicate FinBlockStep(env: Environment, s: State, b: BlockIndex?, t: State, ok: bool) {
    if b == null || LastOf(s.active) != b.pprev then t == s && ok
    else
      var verdict := env.connect(b, s.asked);
      && ok == (verdict != SystemFailure)
      && t == s.(active := s.active + if verdict == Accept then [b] else [], asked := s.asked + 1,
                 failed := s.failed + if verdict == Reject then {b} else {})
  }

  // What follows the search in one round of the outer loop.
  ghost predicate AfterSearch(env: Environment, final: Hash, s: State, b: BlockIndex?, t: State, exit: Exit) {
    if s.mostWork == [] then t == s && exit == NothingToDo
    else
      var r := FinalityWalk(env, final, s.active, s.mostWork, |s.active|, s.localFin, s.asked);
      var u := s.(localFin := r.localFin, asked := r.asked);
      if r.held then (exit == FinalityHeld || exit == Failure) && FinBlockStep(env, u, b, t, exit == FinalityHeld)
      else ReorganiseStep(env, u, t, exit)
  }

  // A round of the outer loop: the states before it, after FindMostWorkChain, and after it.
  datatype Round = Round(start: State, searched: State, end: State, exit: Exit)

  ghost predicate IsRound(env: Environment, final: Hash, b: BlockIndex?, r: Round) {
    && WellFormed(r.start) && WellFormed(r.end)
    && SearchStep(r.start, r.searched) && AfterSearch(env, final, r.searched, b, r.end, r.exit)
  }

  // The rounds of one call of ActivateBestChain for the new block b.
  ghost predicate IsCall(env: Environment, final: Hash, b: BlockIndex?, rounds: seq<Round>) {
    && rounds != [] && rounds[|rounds| - 1].exit != Retry
    && (forall i | 0 <= i < |rounds| :: IsRound(env, final, b, rounds[i]))
    && (forall i | 0 <= i < |rounds| - 1 :: rounds[i].exit == Retry && rounds[i].end == rounds[i + 1].start)
  }
}
