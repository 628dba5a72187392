// A run in which an invalidated block becomes active: a fork whose better branch cannot be connected at first
// because one disconnect fails, the invalidation of that branch, and an activation after it.

module ForkedRun {
  import opened BlockTree
  import opened BlockChain
  import opened SelectionRules
  import opened Activation
  import opened ActivationLaws
  import opened ChainEvents
  import opened RunLaws
  import opened ChainSelection
  import opened ChainRuns

  // Every block is accepted, and only question number 2 fails.
  function Env(): Environment {
    Environment((_, _) => Accept, (_, n) => n != 2, _ => false, _ => true)
  }

  // Two blocks on a root, and one on the second of them; then the second is invalidated.
  function Events(): seq<Event> {
    [NewBlock(1, 0, 1), NewBlock(2, 1, 2), NewBlock(3, 1, 3), NewBlock(4, 3, 4), Invalidate(3), Activate]
  }

  ghost predicate Forked(root: BlockIndex, a: BlockIndex, b: BlockIndex, c: BlockIndex) {
    && root.pprev == null && root.height == 0 && root.hash == 1
    && a.pprev == root && a.height == 1 && a.hash == 2
    && b.pprev == root && b.height == 1 && b.hash == 3 && Less(b, a)
    && c.pprev == b && c.height == 2 && c.hash == 4
  }

  lemma Paths(root: BlockIndex, a: BlockIndex, b: BlockIndex, c: BlockIndex)
    requires Forked(root, a, b, c)
    ensures IsPath([root]) && IsPath([root, a]) && IsPath([root, b, c])
  {
    assert Ancestor(a, 0) == root;
    assert Ancestor(c, 1) == b && Ancestor(c, 0) == Ancestor(b, 0) == root;
  }

  // Without flags the search compares the tip of chainMostWork with the greatest block.
  lemma UnflaggedSearch(s: State, t: State, best: BlockIndex)
    requires WellFormed(s) && SearchStep(s, t) && s.failed == {} && IsGreatest(best, s.Blocks())
    ensures t == s.(mostWork := t.mostWork)
    ensures LastOf(t.mostWork)
         == if LastOf(s.mostWork) != null && !Less(LastOf(s.mostWork), best) then LastOf(s.mostWork) else best
  {
    TrimmedIsAll(s.mostWork, s.failed);
    assert forall b <- t.failed :: Tainted(s.active, s.failed, b);
    assert t.failed == {} && s.Blocks() - t.failed == s.Blocks();
  }

  // With every block accepted the inner loops complete, or disconnecting fails.
  lemma Reorganises(s: State, t: State, exit: Exit)
    requires IsPath(s.mostWork) && ReorganiseStep(Env(), s, t, exit)
    ensures var k := CommonLength(s.active, s.mostWork);
            if Disconnects(Env(), s.active, s.asked, k)
            then exit == Complete && t == s.(active := s.mostWork, asked := s.asked + |s.active| - k + |s.mostWork| - k)
            else exit == Failure && DisconnectFails(Env(), s, t, k)
  {
  }

  // No block that m drops from s.active is the root or has hash 0.
  ghost predicate DropsPlainBlocks(s: State, m: Path) {
    s.localFin == null
    && forall i | CommonLength(s.active, m) <= i < |s.active| ::
         s.active[i] != null && s.active[0] != null && s.active[i].hash != 0 && s.active[i].hash != s.active[0].hash
  }

  // A call whose search leaves m takes a single round, which completes unless disconnecting fails.
  lemma SingleRound(b: BlockIndex?, rounds: seq<Round>, s: State, t: State, m: Path)
    requires IsActivation(Env(), 0, s, b, rounds, t) && m != [] && DropsPlainBlocks(s, m)
    requires rounds[0].searched.mostWork == m
    ensures s.failed <= t.failed && SearchStep(s, rounds[0].searched)
    ensures var k := CommonLength(s.active, m);
            var u := s.(mostWork := m, failed := t.failed);
            t.failed == rounds[0].searched.failed
            && if Disconnects(Env(), s.active, s.asked, k)
               then t == u.(active := m, asked := s.asked + |s.active| - k + |m| - k)
               else DisconnectFails(Env(), u, t, k)
  {
    hide IsPath, CommonLength, Linked, Ancestor, Tree, MostWork, Tainted, Disconnects;
    var r := rounds[0];
    var u := r.searched;
    WalkGoesOn(Env(), 0, u.active, m, |u.active|, u.localFin, u.asked);
    Reorganises(u, r.end, r.exit);
    assert |rounds| == 1;
  }

  // The same for a state without flags, whose greatest block is best.
  lemma UnflaggedRound(b: BlockIndex?, rounds: seq<Round>, s: State, t: State, best: BlockIndex, m: Path)
    requires IsActivation(Env(), 0, s, b, rounds, t) && s.failed == {} && IsGreatest(best, s.Blocks())
    requires IsPath(m) && m != [] && DropsPlainBlocks(s, m)
    requires LastOf(m)
          == if LastOf(s.mostWork) != null && !Less(LastOf(s.mostWork), best) then LastOf(s.mostWork) else best
    ensures var k := CommonLength(s.active, m);
            if Disconnects(Env(), s.active, s.asked, k)
            then t == s.(mostWork := m, active := m, asked := s.asked + |s.active| - k + |m| - k)
            else DisconnectFails(Env(), s.(mostWork := m), t, k)
  {
    hide IsPath, CommonLength, Linked, Ancestor, Tree, MostWork, Tainted, Disconnects, DropsPlainBlocks;
    var u := rounds[0].searched;
    UnflaggedSearch(s, u, best);
    SamePath(u.mostWork, m);
    SingleRound(b, rounds, s, t, m);
  }

  lemma CommonLengths(root: BlockIndex, a: BlockIndex, b: BlockIndex, c: BlockIndex)
    requires Forked(root, a, b, c)
    ensures CommonLength([], [root]) == 0 && CommonLength([root], [root, a]) == 1
    ensures CommonLength([root, a], [root, a]) == 2 && CommonLength([root, a], [root, b, c]) == 1
  {
  }

  // The root arrives and becomes active.
  lemma RootArrives(r: Record) returns (root: BlockIndex)
    requires IsRecord(Env(), 0, r) && r.event == NewBlock(1, 0, 1) && r.start == Initial()
    ensures root.pprev == null && root.height == 0 && root.hash == 1
    ensures r.end == State(map[1 := root], [root], [root], {}, null, 1, 2, 1)
  {
    hide IsCall;
    root := r.block;
    var s := r.rounds[0].start;
    InsertFrame(r.start, 1, 0, 1, root, s);
    assert Ancestor(root, 0) == root;
    UnflaggedRound(root, r.rounds, s, r.end, root, [root]);
  }

  // a arrives and becomes active.
  lemma FirstArrives(r: Record, root: BlockIndex) returns (a: BlockIndex)
    requires IsRecord(Env(), 0, r) && r.event == NewBlock(2, 1, 2)
    requires root.pprev == null && root.height == 0 && root.hash == 1
    requires r.start == State(map[1 := root], [root], [root], {}, null, 1, 2, 1)
    ensures a.pprev == root && a.height == 1 && a.hash == 2 && a.sequenceId == 2
    ensures r.end == State(r.start.index[2 := a], [root, a], [root, a], {}, null, 2, 3, 2)
  {
    hide IsCall;
    a := r.block;
    var s := r.rounds[0].start;
    InsertFrame(r.start, 2, 1, 2, a, s);
    assert Ancestor(a, 0) == root;
    CommonLengthShares([root], [root, a]);
    UnflaggedRound(a, r.rounds, s, r.end, a, [root, a]);
  }

  // b arrives, beside a.
  lemma SecondArrives(r: Record, root: BlockIndex, a: BlockIndex) returns (b: BlockIndex)
    requires IsRecord(Env(), 0, r) && r.event == NewBlock(3, 1, 3)
    requires root.pprev == null && root.height == 0 && root.hash == 1
    requires a.pprev == root && a.height == 1 && a.hash == 2 && a.sequenceId == 2
    requires r.start == State(map[1 := root, 2 := a], [root, a], [root, a], {}, null, 2, 3, 2)
    ensures b.pprev == root && b.height == 1 && b.hash == 3 && Less(b, a)
    ensures r.end == State(r.start.index[3 := b], [root, a], [root, a], {}, null, 2, 4, 3)
  {
    hide IsCall;
    b := r.block;
    var s := r.rounds[0].start;
    InsertFrame(r.start, 3, 1, 3, b, s);
    assert Ancestor(a, 0) == root;
    CommonLengthShares([root, a], [root, a]);
    UnflaggedRound(b, r.rounds, s, r.end, a, [root, a]);
  }

  // c arrives on top of b, and disconnecting a fails.
  lemma ThirdArrives(r: Record, root: BlockIndex, a: BlockIndex, b: BlockIndex) returns (c: BlockIndex)
    requires IsRecord(Env(), 0, r) && r.event == NewBlock(4, 3, 4)
    requires root.pprev == null && root.height == 0 && root.hash == 1
    requires a.pprev == root && a.height == 1 && a.hash == 2
    requires b.pprev == root && b.height == 1 && b.hash == 3 && Less(b, a)
    requires r.start == State(map[1 := root, 2 := a, 3 := b], [root, a], [root, a], {}, null, 2, 4, 3)
    ensures Forked(root, a, b, c)
    ensures r.end == State(r.start.index[4 := c], [root, a], [root, b, c], {}, null, 3, 5, 4)
  {
    hide IsCall, IsActivation, WellFormed;
    c := r.block;
    var s := r.rounds[0].start;
    InsertFrame(r.start, 4, 3, 4, c, s);
    Paths(root, a, b, c);
    CommonLengths(root, a, b, c);
    UnflaggedRound(c, r.rounds, s, r.end, c, [root, b, c]);
    assert !Disconnects(Env(), s.active, s.asked, 1);
    assert r.end.active == [root, a];
  }

  lemma SearchOf(b: BlockIndex?, rounds: seq<Round>, s: State, t: State) returns (u: State)
    requires IsActivation(Env(), 0, s, b, rounds, t)
    ensures rounds != [] && u == rounds[0].searched && WellFormed(s) && SearchStep(s, u)
  {
    u := rounds[0].searched;
  }

  // After b was invalidated the search keeps c as its tip, and b becomes active.
  lemma FlaggedIsConnected(r: Record, root: BlockIndex, a: BlockIndex, b: BlockIndex, c: BlockIndex)
    requires IsRecord(Env(), 0, r) && r.event == Activate && Forked(root, a, b, c)
    requires r.start == State(map[1 := root, 2 := a, 3 := b, 4 := c], [root, a], [root, b, c], {b}, null, 3, 5, 5)
    ensures r.end.index == r.start.index && b in r.end.failed && r.end.active == [root, b, c]
  {
    hide IsCall;
    var s := r.start;
    var u := SearchOf(null, r.rounds, s, r.end);
    Paths(root, a, b, c);
    CommonLengths(root, a, b, c);
    TrimmedIsAll(s.mostWork, s.failed);
    KeptUnlessBeaten(s, u);
    assert Ancestor(c, 1) == b && !SharesAt(s.active, c, 1);
    assert !Clean(s.active, s.failed, c);
    hide WellFormed, SearchStep, Clean, Linked, Ancestor, IsPath, CommonLength;
    assert s.Blocks() == {root, a, b, c};
    SingleRound(null, r.rounds, s, r.end, s.mostWork);
    assert Disconnects(Env(), s.active, s.asked, 1);
  }

  lemma Invalidates(r: Record, a: BlockIndex, b: BlockIndex)
    requires IsRecord(Env(), 0, r) && r.event == Invalidate(3) && 3 in r.start.index && r.start.index[3] == b
    requires !Holds(r.start.active, b)
    ensures r.ok && r.end == r.start.(failed := r.start.failed + {b}, writes := r.start.writes + 1)
  {
  }

  // Every run of these events ends with the invalidated block flagged and active.
  lemma InvalidatedBecomesActive(records: seq<Record>)
    requires IsRun(Env(), 0, Events(), records) && records[0].start == Initial()
    ensures var t := records[5].end;
            records[4].event == Invalidate(3) && records[4].ok && records[5].event == Activate
            && 3 in t.index && t.index[3] in t.failed && Holds(t.active, t.index[3])
  {
    hide IsRecord;
    var root := RootArrives(records[0]);
    var a := FirstArrives(records[1], root);
    var b := SecondArrives(records[2], root, a);
    var c := ThirdArrives(records[3], root, a, b);
    Invalidates(records[4], a, b);
    FlaggedIsConnected(records[5], root, a, b, c);
  }

  lemma NothingBreaks(event: Event, s: State, t: State)
    ensures !Breaks(Env(), s, event, t)
  {
  }

  lemma AllEvents(records: seq<Record>, last: State)
    requires LeadsTo(Env(), 0, Initial(), Events()[..6], records, last)
    ensures IsRun(Env(), 0, Events(), records) && records[0].start == Initial() && records[5].end == last
  {
    assert Events()[..6] == Events();
  }

  // Such a run exists.
  method RunIt() returns (s: ChainState, ghost records: seq<Record>)
    ensures fresh(s) && s.env == Env() && IsRun(Env(), 0, Events(), records) && records[0].start == Initial()
    ensures s.Snapshot() == records[5].end
  {
    hide LeadsTo, Breaks, IsRun;
    s := new ChainState(Env(), 0);
    ghost var last;
    records, last := Replay(s, Events());
    if |records| < 6 {
      NothingBreaks(Events()[|records|], last, s.Snapshot());
    }
    AllEvents(records, last);
  }
}
