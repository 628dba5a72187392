// The events that change the state of chain selection (src/main.cpp), as relations between values, and runs
// of them.

module ChainEvents {
  import opened BlockTree
  import opened SkipList
  import opened BlockChain
  import opened SelectionRules
  import opened Activation

  // Before the first block arrives.
  function Initial(): State {
    State(map[], [], [], {}, null, 0, 1, 0)
  }

  datatype Event =
    | NewBlock(hash: Hash, prevHash: Hash, address: nat)   // a block arrives
    | Activate                                             // ActivateBestChain without a new block
    | Invalidate(hash: Hash)                               // the operator invalidates a block
    | Reconsider(hash: Hash, children: bool)               // or takes that back

  // The writes with these numbers succeed.
  ghost predicate Writes(env: Environment, n0: nat, n1: nat) {
    forall n | n0 <= n < n1 :: env.written(n)
  }

  // The part of AddToBlockIndex before ActivateBestChain, up to the write of the new entry, whatever its answer.
  ghost predicate InsertStep(s: State, hash: Hash, prevHash: Hash, address: nat, b: BlockIndex, t: State) {
    && hash !in s.index && b !in s.Blocks()
    && t == s.(index := s.index[hash := b], nextId := t.nextId, writes := s.writes + 1)
    && b.hash == hash && b.address == address && b.sequenceId == s.nextId
    && t.nextId == (s.nextId + 1) % 0x1_0000_0000
    && b.pprev == (if prevHash in s.index then s.index[prevHash] else null)
    && b.height == if b.pprev == null then 0 else b.pprev.height + 1
  }

  // InvalidateBlock: p and the active blocks from it up are flagged and written, the tip first, and each is
  // disconnected after that. All writes succeed; ok says whether the disconnects do.
  ghost predicate InvalidateStep(env: Environment, s: State, p: BlockIndex, t: State, ok: bool) {
    var a, j := s.active, |t.active|;
    && s.writes < t.writes && Writes(env, s.writes, t.writes)
    && if !Holds(a, p) then ok && t == s.(failed := s.failed + {p}, writes := s.writes + 1)
       else if ok then
         && Disconnects(env, a, s.asked, p.height)
         && t == s.(active := a[..p.height], failed := s.failed + From(a, p.height),
                    asked := s.asked + |a| - p.height, writes := s.writes + 1 + |a| - p.height)
       else
         && p.height < j <= |a| && Disconnects(env, a, s.asked, j)
         && a[j - 1] != null && !env.disconnect(a[j - 1], s.asked + |a| - j)
         && t == s.(active := a[..j], failed := s.failed + {p} + From(a, j - 1),
                    asked := s.asked + |a| - j + 1, writes := s.writes + 2 + |a| - j)
  }

  // InvalidateBlock up to a failing write: that of p, or that of the active block at height j - 1.
  ghost predicate InvalidateBreaks(env: Environment, s: State, p: BlockIndex, t: State) {
    var a, j := s.active, |t.active|;
    && s.writes < t.writes && Writes(env, s.writes, t.writes - 1) && !env.written(t.writes - 1)
    && if t.writes == s.writes + 1 then t == s.(failed := s.failed + {p}, writes := t.writes)
       else
         && Holds(a, p) && p.height < j <= |a| && Disconnects(env, a, s.asked, j)
         && t == s.(active := a[..j], failed := s.failed + {p} + From(a, j - 1),
                    asked := s.asked + |a| - j, writes := s.writes + 2 + |a| - j)
  }

  // p and its ancestors.
  ghost function WayBack(p: BlockIndex): set<BlockIndex>
    requires Linked(p)
  {
    set h | 0 <= h <= p.height :: Ancestor(p, h)
  }

  // p and its ancestors, and on request its descendants.
  ghost function Relatives(s: State, p: BlockIndex, children: bool): set<BlockIndex>
    requires Linked(p)
  {
    WayBack(p) + if children then Descendants(s.Blocks(), p) else {}
  }

  // ReconsiderBlock: these lose their flags, and each that had one is written, successfully.
  ghost predicate ReconsiderStep(env: Environment, s: State, p: BlockIndex, children: bool, t: State) {
    && Linked(p) && s.writes <= t.writes && Writes(env, s.writes, t.writes)
    && t == s.(failed := s.failed - Relatives(s, p, children),
               writes := s.writes + |s.failed * Relatives(s, p, children)|)
  }

  // With the flagged descendants first, and then p and its ancestors downwards, some of these blocks were taken.
  ghost predicate TakenInOrder(s: State, p: BlockIndex, children: bool, taken: set<BlockIndex>)
    requires Linked(p)
  {
    var below := if children then Descendants(s.Blocks(), p) else {};
    || taken <= s.failed * below
    || exists h :: 0 <= h <= p.height && taken == s.failed * (below + Above(p, h) + {Ancestor(p, h)})
  }

  // ReconsiderBlock up to a failing write.
  ghost predicate ReconsiderBreaks(env: Environment, s: State, p: BlockIndex, children: bool, t: State) {
    && Linked(p) && s.writes < t.writes && Writes(env, s.writes, t.writes - 1) && !env.written(t.writes - 1)
    && t.failed <= s.failed && TakenInOrder(s, p, children, s.failed - t.failed)
    && t == s.(failed := t.failed, writes := s.writes + |s.failed - t.failed|)
  }

  // The event ends in a failing write, which leaves candidates and flags apart.
  ghost predicate Breaks(env: Environment, s: State, event: Event, t: State) {
    match event
    case Invalidate(hash) => hash in s.index && InvalidateBreaks(env, s, s.index[hash], t)
    case Reconsider(hash, children) => hash in s.index && ReconsiderBreaks(env, s, s.index[hash], children, t)
    case _ => false
  }

  // What happened at one event: for a new block or an activation the new entry and the rounds of
  // ActivateBestChain, if its entry could be written; for an invalidation its result.
  datatype Record = Record(start: State, event: Event, block: BlockIndex?, rounds: seq<Round>, ok: bool, end: State)

  ghost predicate IsActivation(env: Environment, final: Hash, s: State, b: BlockIndex?, rounds: seq<Round>, t: State) {
    IsCall(env, final, b, rounds) && rounds[0].start == s && rounds[|rounds| - 1].end == t
  }

  ghost predicate IsRecord(env: Environment, final: Hash, r: Record) {
    && WellFormed(r.start) && WellFormed(r.end)
    && match r.event
       case NewBlock(hash, prevHash, address) =>
         if hash in r.start.index then r.end == r.start && r.block == null && r.rounds == []
         else
           && r.block != null
           && if env.written(r.start.writes) then
                && r.rounds != [] && InsertStep(r.start, hash, prevHash, address, r.block, r.rounds[0].start)
                && IsActivation(env, final, r.rounds[0].start, r.block, r.rounds, r.end)
              else r.rounds == [] && InsertStep(r.start, hash, prevHash, address, r.block, r.end)
       case Activate => IsActivation(env, final, r.start, null, r.rounds, r.end)
       case Invalidate(hash) =>
         && r.rounds == []
         && if hash in r.start.index then InvalidateStep(env, r.start, r.start.index[hash], r.end, r.ok)
            else r.end == r.start && r.ok
       case Reconsider(hash, children) =>
         && r.rounds == []
         && if hash in r.start.index then ReconsiderStep(env, r.start, r.start.index[hash], children, r.end)
            else r.end == r.start
  }

  ghost predicate IsRun(env: Environment, final: Hash, events: seq<Event>, records: seq<Record>) {
    && |records| == |events|
    && (forall i | 0 <= i < |records| :: records[i].event == events[i] && IsRecord(env, final, records[i]))
    && (forall i | 0 <= i < |records| - 1 :: records[i].end == records[i + 1].start)
  }
}
