// What every run of chain selection keeps (src/main.cpp).

module RunLaws {
  import opened BlockTree
  import opened BlockChain
  import opened SelectionRules
  import opened Activation
  import opened ActivationLaws
  import opened FlaggedBlocks
  import opened ChainEvents

  // ---- Finality -------------------------------------------------------------------------------------

  ghost predicate StaysFinal(final: Hash, s: State, t: State) {
    FinalKept(s.Blocks(), final, s.active, t.active)
  }

  // The local final block stays the same, and active.
  ghost predicate LocalStaysFinal(s: State, t: State) {
    s.LocalFin() != null ==> t.LocalFin() == s.LocalFin() && StaysFinal(s.LocalFin().hash, s, t)
  }

  ghost predicate NoTimeOuts(env: Environment, final: Hash, rounds: seq<Round>, n: nat)
    requires n <= |rounds|
  {
    forall i | 0 <= i < n :: NoTimeOut(env, final, rounds[i])
  }

  lemma StaysTransitive(final: Hash, s: State, t: State, u: State)
    requires s.Blocks() <= t.Blocks() && StaysFinal(final, s, t) && StaysFinal(final, t, u)
    ensures StaysFinal(final, s, u)
    ensures LocalStaysFinal(s, t) && LocalStaysFinal(t, u) ==> LocalStaysFinal(s, u)
  {
  }

  lemma RoundStays(env: Environment, final: Hash, b: BlockIndex?, r: Round)
    requires IsRound(env, final, b, r)
    ensures StaysFinal(final, r.start, r.end)
    ensures NoTimeOut(env, final, r) ==> LocalStaysFinal(r.start, r.end)
  {
    hide IsRound;
    RoundKeepsFinal(env, final, b, r);
  }

  lemma {:induction false} CallKeepsFinal(env: Environment, final: Hash, b: BlockIndex?, rounds: seq<Round>, n: nat)
    requires IsCall(env, final, b, rounds) && n < |rounds|
    ensures StaysFinal(final, rounds[0].start, rounds[n].end)
    ensures NoTimeOuts(env, final, rounds, n + 1) ==> LocalStaysFinal(rounds[0].start, rounds[n].end)
    ensures rounds[n].end.index == rounds[0].start.index
  {
    hide IsRound, StaysFinal, LocalStaysFinal, NoTimeOut;
    RoundFrame(env, final, b, rounds[n]);
    RoundStays(env, final, b, rounds[n]);
    if n > 0 {
      CallKeepsFinal(env, final, b, rounds, n - 1);
      StaysTransitive(final, rounds[0].start, rounds[n].start, rounds[n].end);
    }
  }

  lemma InsertFrame(s: State, hash: Hash, prevHash: Hash, address: nat, b: BlockIndex, t: State)
    requires InsertStep(s, hash, prevHash, address, b, t)
    ensures s.Blocks() <= t.Blocks() && b in t.Blocks() && t.Blocks() == s.Blocks() + {b}
    ensures t == s.(index := t.index, nextId := t.nextId, writes := t.writes)
  {
    forall c <- s.Blocks()
      ensures c in t.Blocks()
    {
      var h :| h in s.index && s.index[h] == c;
      assert t.index[h] == c;
    }
    assert t.index[hash] == b;
  }

  // A block whose entry cannot be written is in the index and a candidate, and nothing is done about it.
  lemma UnwrittenBlockWaits(env: Environment, final: Hash, r: Record)
    requires IsRecord(env, final, r) && r.event.NewBlock? && r.event.hash !in r.start.index
    requires !env.written(r.start.writes)
    ensures r.block != null && r.end.Candidates() == r.start.Candidates() + {r.block} && r.rounds == []
    ensures r.end == r.start.(index := r.start.index[r.event.hash := r.block], nextId := r.end.nextId,
                              writes := r.start.writes + 1)
  {
    hide Tree, Linked, Ancestor, IsPath, IsCall;
    InsertFrame(r.start, r.event.hash, r.event.prevHash, r.event.address, r.block, r.end);
  }

  lemma CallHasRounds(env: Environment, final: Hash, b: BlockIndex?, rounds: seq<Round>)
    requires IsCall(env, final, b, rounds)
    ensures rounds != []
  {
  }

  lemma RecordKeepsFinal(env: Environment, final: Hash, r: Record)
    requires IsRecord(env, final, r) && !r.event.Invalidate?
    ensures StaysFinal(final, r.start, r.end) && r.start.Blocks() <= r.end.Blocks()
    ensures NoTimeOuts(env, final, r.rounds, |r.rounds|) ==> LocalStaysFinal(r.start, r.end)
  {
    hide WellFormed, IsCall, NoTimeOut;
    match r.event
    case NewBlock(hash, prevHash, address) =>
      if hash !in r.start.index {
        var s := if r.rounds == [] then r.end else r.rounds[0].start;
        InsertFrame(r.start, hash, prevHash, address, r.block, s);
      }
      if r.rounds != [] {
        var s := r.rounds[0].start;
        CallKeepsFinal(env, final, r.block, r.rounds, |r.rounds| - 1);
        StaysTransitive(final, r.start, s, r.end);
      }
    case Activate =>
      assert r.rounds != [] by { CallHasRounds(env, final, null, r.rounds); }
      CallKeepsFinal(env, final, null, r.rounds, |r.rounds| - 1);
    case Reconsider(hash, children) =>
  }

  // Over every stretch of a run without invalidations a final block on the active chain stays there; the local
  // one unless it times out in one of the finality walks.
  lemma {:induction false} RunKeepsFinal(env: Environment, final: Hash, events: seq<Event>, records: seq<Record>,
                                         i: nat, j: nat)
    requires IsRun(env, final, events, records) && i <= j < |records|
    requires forall k | i <= k <= j :: !events[k].Invalidate?
    ensures StaysFinal(final, records[i].start, records[j].end)
    ensures (forall k | i <= k <= j :: NoTimeOuts(env, final, records[k].rounds, |records[k].rounds|)) ==>
              LocalStaysFinal(records[i].start, records[j].end)
    ensures records[i].start.Blocks() <= records[j].end.Blocks()
    decreases j
  {
    hide IsRecord, StaysFinal, LocalStaysFinal, NoTimeOuts;
    RecordKeepsFinal(env, final, records[j]);
    if i < j {
      RunKeepsFinal(env, final, events, records, i, j - 1);
      StaysTransitive(final, records[i].start, records[j].start, records[j].end);
    }
  }

  // ---- Flagged blocks -------------------------------------------------------------------------------

  // Invalidating p leaves no way to it along chainMostWork: p is not on it, or nothing above p stays
  // unflagged there, or the way stops at p or below.
  ghost predicate Harmless(env: Environment, s: State, p: BlockIndex) {
    var a, m, h := s.active, s.mostWork, p.height;
    Holds(m, p) ==>
      || (forall i | h < i < |m| :: m[i] in s.failed || (Holds(a, p) && i < |a| && a[i] == m[i]))
      || NeverAccepted(env, p)
      || exists j :: j < h && Stops(env, a, m, j)
  }

  // The flags after a successful invalidation, at the heights of chainMostWork.
  lemma InvalidatedAt(env: Environment, s: State, p: BlockIndex, t: State, i: nat)
    requires WellFormed(s) && InvalidateStep(env, s, p, t, true) && i < |s.mostWork|
    ensures var a, m := s.active, s.mostWork;
            && m[i] != null && m[i].height == i
            && (m[i] in t.failed <==>
                  m[i] in s.failed || m[i] == p || (Holds(a, p) && p.height <= i < |a| && a[i] == m[i]))
  {
  }

  // With the root as the only block, active, and a failing disconnect, the block is flagged and stays active.
  lemma FlaggedRootStays(env: Environment, root: BlockIndex, t: State, ok: bool)
    requires root.pprev == null && root.height == 0 && !env.disconnect(root, 0) && Writes(env, 0, 2)
    ensures var s := State(map[root.hash := root], [root], [root], {}, null, 0, 2, 0);
            && WellFormed(s) && InvalidateStep(env, s, root, s.(failed := {root}, asked := 1, writes := 2), false)
            && (InvalidateStep(env, s, root, t, ok) ==> !ok && root in t.failed && Holds(t.active, root))
  {
    var s := State(map[root.hash := root], [root], [root], {}, null, 0, 2, 0);
    assert s.index[root.hash] == root && s.Blocks() == {root};
    assert s.active[0] == root;
    FromStep(s.active, 0);
    FromStep(s.active, 1);
  }

  // If p is active, it and the blocks above it can be disconnected.
  ghost predicate CanDisconnect(env: Environment, s: State, p: BlockIndex) {
    Holds(s.active, p) ==> Disconnects(env, s.active, s.asked, p.height)
  }

  lemma InvalidateSucceeds(env: Environment, s: State, p: BlockIndex, t: State, ok: bool)
    requires InvalidateStep(env, s, p, t, ok)
    ensures ok <==> CanDisconnect(env, s, p)
  {
  }

  // An invalidation succeeds, and leaves no flagged block active, exactly if these blocks can be disconnected.
  lemma InvalidateUnflags(env: Environment, s: State, p: BlockIndex, t: State, ok: bool)
    requires WellFormed(s) && InvalidateStep(env, s, p, t, ok) && Unflagged(s.active, s.failed)
    ensures ok <==> CanDisconnect(env, s, p)
    ensures Unflagged(t.active, t.failed) <==> CanDisconnect(env, s, p)
  {
    InvalidateSucceeds(env, s, p, t, ok);
    hide Linked, Ancestor, IsPath, Tree, Disconnects;
    var a := s.active;
    forall j | 0 <= j < |a|
      ensures a[j] != null && a[j].height == j
    {
      SlotParent(a, j);
    }
    if !ok {
      assert a[|t.active| - 1] in From(a, |t.active| - 1);
      assert t.active[|t.active| - 1] in t.failed;
    }
  }

  // An invalidation that ends at a failing write leaves a flagged block active exactly if p was active.
  lemma FailedWriteUnflags(env: Environment, s: State, p: BlockIndex, t: State)
    requires WellFormed(s) && InvalidateBreaks(env, s, p, t) && Unflagged(s.active, s.failed)
    ensures Unflagged(t.active, t.failed) <==> !Holds(s.active, p)
  {
    hide Linked, Ancestor, IsPath, Tree, Disconnects;
    var a, j := s.active, |t.active|;
    if t.writes != s.writes + 1 {
      SlotParent(a, j - 1);
      assert t.active[j - 1] in From(a, j - 1);
    } else if Holds(a, p) {
      assert t.active[p.height] in t.failed;
    } else {
      forall i | 0 <= i < |a|
        ensures a[i] != p
      {
        SlotParent(a, i);
      }
    }
  }

  // The active blocks on top of an active block are those from its height on; there are none on top of another.
  lemma OnTopOf(a: Path, p: BlockIndex, c: BlockIndex)
    requires IsPath(a) && Linked(p) && Linked(c)
    ensures Holds(a, c) && IsAncestor(p, c) <==> Holds(a, p) && Holds(a, c) && p.height <= c.height
    ensures Holds(a, p) ==> (c in From(a, p.height) <==> Holds(a, c) && p.height <= c.height)
  {
    hide Linked, Ancestor;
    if Holds(a, c) {
      SlotParent(a, c.height);
      if p.height <= c.height {
        AncestorOfAncestor(LastOf(a), c.height, p.height);
      }
    }
    if c in From(a, p.height) {
      var i: nat :| p.height <= i < |a| && a[i] == c;
      SlotParent(a, i);
    }
  }

  // What a successful invalidation changes, block by block: p and the active blocks on top of it are flagged, and
  // leave the active chain.
  lemma InvalidateChanges(env: Environment, s: State, p: BlockIndex, t: State, c: BlockIndex)
    requires WellFormed(s) && InvalidateStep(env, s, p, t, true) && p in s.Blocks() && c in s.Blocks()
    ensures Linked(c)
    ensures c in t.failed <==> c in s.failed || c == p || (Holds(s.active, c) && IsAncestor(p, c))
    ensures Holds(t.active, c) <==> Holds(s.active, c) && !IsAncestor(p, c)
    ensures t.index == s.index && t.mostWork == s.mostWork && t.localFin == s.localFin && t.nextId == s.nextId
  {
    hide Linked, Ancestor, IsPath, Tree, Disconnects, Writes, IsAncestor;
    InTree(s.Blocks(), c);
    InTree(s.Blocks(), p);
    OnTopOf(s.active, p, c);
  }

  // At a failing disconnect the active tip is the block that could not be disconnected; it is flagged, and so are
  // p and what was disconnected.
  lemma FailedInvalidateChanges(env: Environment, s: State, p: BlockIndex, t: State, c: BlockIndex)
    requires WellFormed(s) && InvalidateStep(env, s, p, t, false) && p in s.Blocks() && c in s.Blocks()
    ensures Holds(s.active, p) && p.height < |t.active| && t.active <= s.active && t.asked > 0
    ensures !env.disconnect(t.active[|t.active| - 1], t.asked - 1)
    ensures c in t.failed <==> c in s.failed || c == p || (Holds(s.active, c) && c.height >= |t.active| - 1)
    ensures t.index == s.index && t.mostWork == s.mostWork && t.localFin == s.localFin && t.nextId == s.nextId
  {
    hide Linked, Ancestor, IsPath, Tree, Disconnects, Writes;
    var j := |t.active| - 1;
    SlotParent(s.active, j);
    if c in From(s.active, j) {
      var i: nat :| j <= i < |s.active| && s.active[i] == c;
      SlotParent(s.active, i);
    }
  }

  // At a failing write only p is flagged if it was p's own; or else the active tip was being written: it, p and what
  // was disconnected are flagged.
  lemma FailedWriteChanges(env: Environment, s: State, p: BlockIndex, t: State, c: BlockIndex)
    requires WellFormed(s) && InvalidateBreaks(env, s, p, t) && p in s.Blocks() && c in s.Blocks()
    ensures t.writes == s.writes + 1 ==>
              t.active == s.active && t.asked == s.asked && (c in t.failed <==> c in s.failed || c == p)
    ensures t.writes != s.writes + 1 ==>
              && Holds(s.active, p) && p.height < |t.active| && t.active <= s.active
              && t.asked == s.asked + |s.active| - |t.active| && t.writes == t.asked - s.asked + s.writes + 2
              && (c in t.failed <==> c in s.failed || c == p || (Holds(s.active, c) && c.height >= |t.active| - 1))
    ensures !env.written(t.writes - 1) && t.index == s.index && t.mostWork == s.mostWork && t.localFin == s.localFin
  {
    hide Linked, Ancestor, IsPath, Tree, Disconnects, Writes;
    if t.writes != s.writes + 1 {
      var j := |t.active| - 1;
      SlotParent(s.active, j);
      if c in From(s.active, j) {
        var i: nat :| j <= i < |s.active| && s.active[i] == c;
        SlotParent(s.active, i);
      }
    }
  }

  lemma InvalidateFrame(env: Environment, s: State, p: BlockIndex, t: State)
    requires InvalidateStep(env, s, p, t, true)
    ensures t.active == (if Holds(s.active, p) then s.active[..p.height] else s.active)
    ensures t.mostWork == s.mostWork && t.index == s.index && s.failed <= t.failed
  {
  }

  lemma SharedBelow(s: State, p: BlockIndex)
    requires WellFormed(s) && Holds(s.active, p) && Holds(s.mostWork, p)
    ensures forall j | 0 <= j < p.height :: s.active[j] == s.mostWork[j]
  {
    forall j | 0 <= j < p.height
      ensures s.active[j] == s.mostWork[j]
    {
      HoldsBelow(s.active, s.mostWork, p.height, j);
    }
  }

  // p is left on the trimmed path: the way to it must stop at it or below.
  lemma StillOnPath(env: Environment, s: State, p: BlockIndex, t: State)
    requires WellFormed(s) && InvalidateStep(env, s, p, t, true)
    requires Holds(Trimmed(s.mostWork, t.failed), p)
    requires Guarded(env, s.active, Trimmed(s.mostWork, t.failed), s.failed)
    ensures Guarded(env, t.active, Trimmed(t.mostWork, t.failed), t.failed) <==> Harmless(env, s, p)
  {
    hide Linked, Ancestor, IsPath, Tree, WellFormed, Trimmed;
    var a, m, h := s.active, s.mostWork, p.height;
    var t1 := Trimmed(m, t.failed);
    InvalidateFrame(env, s, p, t);
    if Holds(a, p) && Holds(m, p) {
      SharedBelow(s, p);
    }
    forall i: nat | i < |m|
      ensures m[i] != null && m[i].height == i
      ensures m[i] in t.failed <==>
                m[i] in s.failed || m[i] == p || (Holds(a, p) && h <= i < |a| && a[i] == m[i])
    {
      InvalidatedAt(env, s, p, t, i);
    }
    hide InvalidateStep;
    assert h < |t1| - 1 && m[|t1| - 1] !in t.failed;
    forall j | 0 <= j <= h
      ensures Stops(env, t.active, t1, j) <==> if j == h then NeverAccepted(env, p) else Stops(env, a, m, j)
      ensures j < h && Stops(env, a, t1, j) ==> Stops(env, t.active, t1, j)
    {
    }
    if j :| 0 <= j <= h && Stops(env, t.active, t1, j) {
      forall i | 0 <= i < |t1| && t1[i] in t.failed
        ensures exists k :: k <= i && Stops(env, t.active, t1, k)
      {
        if i < h {
          var k :| k <= i && Stops(env, a, t1, k);
        }
      }
      assert j == h || Stops(env, a, m, j);
    } else {
      var last := |t1| - 1;
      assert m[last] !in s.failed && !(Holds(a, p) && last < |a| && a[last] == m[last]);
      assert !Stops(env, t.active, t1, h);
      assert t1[h] in t.failed;
    }
  }

  // What m shares with an active chain above p, it has p below.
  lemma NotReactivated(a: Path, m: Path, p: BlockIndex, i: nat)
    requires IsPath(a) && IsPath(m) && i < |m|
    ensures Holds(a, p) && p.height <= i < |a| && a[i] == m[i] ==> Holds(m, p)
  {
    if Holds(a, p) && p.height <= i < |a| && a[i] == m[i] {
      HoldsBelow(a, m, i, p.height);
    }
  }

  // p is not on the trimmed path: no block there got flagged.
  lemma OffPath(env: Environment, s: State, p: BlockIndex, t: State)
    requires WellFormed(s) && InvalidateStep(env, s, p, t, true)
    requires !Holds(Trimmed(s.mostWork, t.failed), p)
    requires Guarded(env, s.active, Trimmed(s.mostWork, t.failed), s.failed)
    ensures Guarded(env, t.active, Trimmed(t.mostWork, t.failed), t.failed) && Harmless(env, s, p)
  {
    hide Linked, Ancestor, IsPath, Tree, Trimmed;
    var a, m, h := s.active, s.mostWork, p.height;
    var t1 := Trimmed(m, t.failed);
    InvalidateFrame(env, s, p, t);
    forall i: nat | i < |m|
      ensures m[i] != null && m[i].height == i
      ensures m[i] in t.failed <==>
                m[i] in s.failed || m[i] == p || (Holds(a, p) && h <= i < |a| && a[i] == m[i])
      ensures Holds(a, p) && p.height <= i < |a| && a[i] == m[i] ==> Holds(m, p)
    {
      InvalidatedAt(env, s, p, t, i);
      NotReactivated(a, m, p, i);
    }
    hide InvalidateStep, WellFormed;
    forall i | 0 <= i < |t1| && t1[i] in t.failed
      ensures exists j :: j <= i && Stops(env, t.active, t1, j)
    {
      var j :| j <= i && Stops(env, a, t1, j);
      assert Stops(env, t.active, t1, j);
    }
  }

  lemma {:induction false} TrimmedShrinks(m: Path, failed0: set<BlockIndex>, failed1: set<BlockIndex>)
    requires failed0 <= failed1
    ensures Trimmed(m, failed1) <= Trimmed(m, failed0)
  {
  }

  // A successful invalidation keeps the protection exactly if it is harmless.
  lemma InvalidateProtects(env: Environment, s: State, p: BlockIndex, t: State)
    requires WellFormed(s) && InvalidateStep(env, s, p, t, true) && Protected(env, s)
    ensures Protected(env, t) <==> Harmless(env, s, p)
  {
    hide InvalidateStep, WellFormed, Harmless, Guarded, Trimmed;
    InvalidateUnflags(env, s, p, t, true);
    InvalidateFrame(env, s, p, t);
    var t1 := Trimmed(s.mostWork, t.failed);
    TrimmedShrinks(s.mostWork, s.failed, t.failed);
    GuardedPart(env, s.active, Trimmed(s.mostWork, s.failed), s.failed, t1);
    if Holds(t1, p) {
      StillOnPath(env, s, p, t);
    } else {
      OffPath(env, s, p, t);
    }
  }

  lemma FewerFlagsGuarded(env: Environment, a: Path, m: Path, failed0: set<BlockIndex>, failed1: set<BlockIndex>)
    requires Guarded(env, a, m, failed0) && failed1 <= failed0
    ensures Guarded(env, a, m, failed1)
  {
  }

  lemma ReconsiderFrame(env: Environment, s: State, p: BlockIndex, children: bool, t: State)
    requires ReconsiderStep(env, s, p, children, t)
    ensures t.failed <= s.failed && t.active == s.active && t.mostWork == s.mostWork && t.index == s.index
    ensures Unflagged(s.active, s.failed) ==> Unflagged(t.active, t.failed)
  {
  }

  lemma NothingToGuard(env: Environment, a: Path, m: Path, failed: set<BlockIndex>)
    requires forall i | 0 <= i < |m| :: m[i] !in failed
    ensures Guarded(env, a, m, failed)
  {
  }

  // What a reconsideration changes, block by block: p, its ancestors, and on request its descendants lose their
  // flags.
  lemma ReconsiderChanges(env: Environment, s: State, p: BlockIndex, children: bool, t: State, c: BlockIndex)
    requires WellFormed(s) && ReconsiderStep(env, s, p, children, t) && p in s.Blocks() && c in s.Blocks()
    ensures Linked(c)
    ensures c in t.failed <==> c in s.failed && !IsAncestor(c, p) && !(children && IsAncestor(p, c))
    ensures t == s.(failed := t.failed, writes := t.writes)
  {
    hide Ancestor, Writes;
    InTree(s.Blocks(), c);
    assert c in WayBack(p) <==> IsAncestor(c, p) by {
      if c in WayBack(p) {
        var h: nat :| h <= p.height && c == Ancestor(p, h);
        AncestorOfAncestor(p, h, h);
      }
    }
  }

  lemma IsAtOrAbove(p: BlockIndex, h: nat, c: BlockIndex)
    requires Linked(p) && h <= p.height && Linked(c)
    ensures c in Above(p, h) + {Ancestor(p, h)} <==> IsAncestor(c, p) && c.height >= h
  {
    if c in Above(p, h) {
      var k :| h < k <= p.height && c == Ancestor(p, k);
    }
  }

  lemma IsDescendant(blocks: set<BlockIndex>, p: BlockIndex, c: BlockIndex)
    requires Linked(c) && c in blocks
    ensures c in Descendants(blocks, p) <==> IsAncestor(p, c)
  {
  }

  // At a failing write the flags of some of them are cleared, with one write each: on request those of descendants
  // first, in any order, and then those of p and its ancestors, downwards.
  lemma BrokenReconsiderChanges(env: Environment, s: State, p: BlockIndex, children: bool, t: State, c: BlockIndex,
                                d: BlockIndex)
    requires WellFormed(s) && ReconsiderBreaks(env, s, p, children, t) && p in s.Blocks()
    requires c in s.failed - t.failed && d in s.failed && d in s.Blocks()
    ensures !env.written(t.writes - 1) && t.writes == s.writes + |s.failed - t.failed|
    ensures t == s.(failed := t.failed, writes := t.writes) && t.failed <= s.failed
    ensures Linked(c) && Linked(d) && (IsAncestor(c, p) || (children && IsAncestor(p, c)))
    ensures !(children && IsAncestor(p, c)) ==>
              (IsAncestor(d, p) && d.height >= c.height) || (children && IsAncestor(p, d)) ==> d !in t.failed
  {
    hide Linked, Ancestor, Tree, IsPath, Writes, IsAncestor, Above, Descendants;
    InTree(s.Blocks(), c);
    InTree(s.Blocks(), d);
    var below, taken := if children then Descendants(s.Blocks(), p) else {}, s.failed - t.failed;
    IsDescendant(s.Blocks(), p, c);
    IsDescendant(s.Blocks(), p, d);
    assert c in taken;
    if !(taken <= s.failed * below) {
      var h :| 0 <= h <= p.height && taken == s.failed * (below + Above(p, h) + {Ancestor(p, h)});
      IsAtOrAbove(p, h, c);
      IsAtOrAbove(p, h, d);
    }
  }

  // Reconsidering an active block with its descendants takes back what invalidating it has flagged: only flags that
  // were above it are lost too.
  lemma ReconsiderUndoes(env: Environment, s: State, p: BlockIndex, t: State, u: State, c: BlockIndex)
    requires WellFormed(s) && InvalidateStep(env, s, p, t, true) && WellFormed(t) && ReconsiderStep(env, t, p, true, u)
    requires p in s.Blocks() && c in s.Blocks() && Unflagged(s.active, s.failed) && Holds(s.active, p)
    ensures Linked(c) && (c in u.failed <==> c in s.failed && !IsAncestor(p, c))
  {
    hide InvalidateStep, ReconsiderStep;
    InvalidateChanges(env, s, p, t, c);
    ReconsiderChanges(env, t, p, true, u, c);
    assert IsAncestor(p, p);
    OnTopOf(s.active, c, p);
  }

  // Where reconsidering clears a flag of chainMostWork, it clears those below.
  lemma UnflaggedBelow(env: Environment, s: State, p: BlockIndex, children: bool, t: State, n: nat, i: nat)
    requires WellFormed(s) && p in s.Blocks() && ReconsiderStep(env, s, p, children, t) && i <= n < |s.mostWork|
    requires s.mostWork[n] in s.failed && s.mostWork[n] !in t.failed
    ensures s.mostWork[i] !in t.failed
  {
    hide Tree;
    var m := s.mostWork;
    SlotParent(m, |m| - 1);
    PathInTree(s.Blocks(), m, n);
    PathInTree(s.Blocks(), m, i);
    AncestorOfAncestor(LastOf(m), n, i);
    var c: BlockIndex, d: BlockIndex := m[n], m[i];
    assert d == Ancestor(c, i);
    if c in WayBack(p) {
      AncestorOfAncestor(p, n, i);
      assert d in WayBack(p);
    } else if i <= p.height {
      AncestorOfAncestor(c, p.height, i);
      assert d in WayBack(p);
    } else {
      AncestorOfAncestor(c, i, p.height);
      assert d in Descendants(s.Blocks(), p);
    }
  }

  // Reconsidering a block keeps the protection.
  lemma ReconsiderProtects(env: Environment, s: State, p: BlockIndex, children: bool, t: State)
    requires WellFormed(s) && p in s.Blocks() && ReconsiderStep(env, s, p, children, t) && Protected(env, s)
    ensures Protected(env, t)
  {
    hide WellFormed, ReconsiderStep, Guarded, Unflagged;
    ReconsiderFrame(env, s, p, children, t);
    var m := s.mostWork;
    var t0, t1 := Trimmed(m, s.failed), Trimmed(m, t.failed);
    TrimmedShrinks(m, t.failed, s.failed);
    if |t0| < |t1| {
      forall i | 0 <= i < |t1|
        ensures t1[i] !in t.failed
      {
        UnflaggedBelow(env, s, p, children, t, |t1| - 1, i);
      }
      NothingToGuard(env, t.active, t1, t.failed);
    } else {
      hide Trimmed;
      assert t1 == t0;
      FewerFlagsGuarded(env, s.active, t0, s.failed, t.failed);
    }
  }

  lemma ConsistentPart(env: Environment, blocks: set<BlockIndex>, blocks': set<BlockIndex>)
    requires Consistent(env, blocks) && blocks' <= blocks
    ensures Consistent(env, blocks')
  {
  }

  // An event keeps the protection, an invalidation if it can disconnect what it flags and is harmless.
  ghost predicate KeepsProtection(env: Environment, r: Record) {
    r.event.Invalidate? && r.event.hash in r.start.index ==>
      var p := r.start.index[r.event.hash];
      CanDisconnect(env, r.start, p) && Harmless(env, r.start, p)
  }

  lemma InvalidateIndex(env: Environment, s: State, p: BlockIndex, t: State, ok: bool)
    requires InvalidateStep(env, s, p, t, ok)
    ensures t.index == s.index
  {
  }

  lemma RecordGrows(env: Environment, final: Hash, r: Record)
    requires IsRecord(env, final, r)
    ensures r.start.Blocks() <= r.end.Blocks()
  {
    hide WellFormed, InvalidateStep, IsCall;
    if r.event.Invalidate? {
      hide IsActivation;
      if r.event.hash in r.start.index {
        InvalidateIndex(env, r.start, r.start.index[r.event.hash], r.end, r.ok);
      }
    } else {
      RecordKeepsFinal(env, final, r);
    }
  }

  lemma CallEnds(env: Environment, final: Hash, b: BlockIndex?, rounds: seq<Round>)
    requires IsCall(env, final, b, rounds)
    ensures rounds != [] && rounds[|rounds| - 1].end.index == rounds[0].start.index
  {
    CallKeepsFinal(env, final, b, rounds, |rounds| - 1);
  }

  lemma RecordProtects(env: Environment, final: Hash, r: Record)
    requires IsRecord(env, final, r) && Consistent(env, r.end.Blocks()) && KeepsProtection(env, r)
    requires Protected(env, r.start)
    ensures Protected(env, r.end)
  {
    hide IsCall, Consistent, FlagJustified, InvalidateStep, ReconsiderStep, Harmless, Guarded, Unflagged, Trimmed;
    RecordGrows(env, final, r);
    ConsistentPart(env, r.end.Blocks(), r.start.Blocks());
    match r.event
    case NewBlock(hash, prevHash, address) =>
      if hash !in r.start.index {
        InsertFrame(r.start, hash, prevHash, address, r.block, if r.rounds == [] then r.end else r.rounds[0].start);
      }
      if r.rounds != [] {
        CallEnds(env, final, r.block, r.rounds);
        CallProtects(env, final, r.block, r.rounds, |r.rounds| - 1);
      }
    case Activate =>
      CallEnds(env, final, null, r.rounds);
      CallProtects(env, final, null, r.rounds, |r.rounds| - 1);
    case Invalidate(hash) =>
      if hash in r.start.index {
        InvalidateSucceeds(env, r.start, r.start.index[hash], r.end, r.ok);
        InvalidateProtects(env, r.start, r.start.index[hash], r.end);
      }
    case Reconsider(hash, children) =>
      if hash in r.start.index {
        ReconsiderProtects(env, r.start, r.start.index[hash], children, r.end);
      }
  }

  lemma {:induction false} RunGrows(env: Environment, final: Hash, events: seq<Event>, records: seq<Record>,
                                    i: nat, j: nat)
    requires IsRun(env, final, events, records) && i <= j < |records|
    ensures records[i].start.Blocks() <= records[i].end.Blocks() <= records[j].end.Blocks()
    decreases j
  {
    hide IsRecord;
    RecordGrows(env, final, records[j]);
    RecordGrows(env, final, records[i]);
    if i < j {
      RunGrows(env, final, events, records, i, j - 1);
    }
  }

  // Over every run that starts protected, with reconsiderations and with harmless invalidations, no flagged
  // block is ever active.
  lemma {:induction false} RunProtects(env: Environment, final: Hash, events: seq<Event>, records: seq<Record>, n: nat)
    requires IsRun(env, final, events, records) && n < |records| && Protected(env, records[0].start)
    requires Consistent(env, records[|records| - 1].end.Blocks())
    requires forall i | 0 <= i <= n :: KeepsProtection(env, records[i])
    ensures Protected(env, records[n].end)
  {
    hide IsRecord, Consistent, Protected, KeepsProtection;
    if n > 0 {
      RunProtects(env, final, events, records, n - 1);
    }
    RunGrows(env, final, events, records, n, |records| - 1);
    ConsistentPart(env, records[|records| - 1].end.Blocks(), records[n].end.Blocks());
    RecordProtects(env, final, records[n]);
  }

  // In particular every run from the start.
  lemma RunFromTheStart(env: Environment, final: Hash, events: seq<Event>, records: seq<Record>, n: nat)
    requires IsRun(env, final, events, records) && n < |records| && records[0].start == Initial()
    requires Consistent(env, records[|records| - 1].end.Blocks())
    requires forall i | 0 <= i <= n :: KeepsProtection(env, records[i])
    ensures Unflagged(records[n].end.active, records[n].end.failed)
  {
    hide IsRecord, Consistent, KeepsProtection;
    RunProtects(env, final, events, records, n);
  }

  // ---- Exactly when a flagged block is active in a run ------------------------------------------------

  // A flagged block is active after one of the rounds or after the event.
  ghost predicate ShowsFlagged(r: Record) {
    || !Unflagged(r.end.active, r.end.failed)
    || exists n :: 0 <= n < |r.rounds| && !Unflagged(r.rounds[n].end.active, r.rounds[n].end.failed)
  }

  // Before an activation a flagged block is next; or an invalidation cannot disconnect what it flagged.
  ghost predicate Dangerous(env: Environment, final: Hash, r: Record) {
    match r.event
    case NewBlock(hash, prevHash, address) =>
      hash !in r.start.index && r.rounds != [] && FlaggedIsNext(env, final, r.rounds[0].start)
    case Activate => FlaggedIsNext(env, final, r.start)
    case Invalidate(hash) => hash in r.start.index && !CanDisconnect(env, r.start, r.start.index[hash])
    case Reconsider(hash, children) => false
  }

  lemma RecordReaches(env: Environment, final: Hash, r: Record)
    requires IsRecord(env, final, r) && Consistent(env, r.end.Blocks()) && Unflagged(r.start.active, r.start.failed)
    ensures ShowsFlagged(r) <==> Dangerous(env, final, r)
  {
    hide IsCall, Consistent, InvalidateStep, FlaggedIsNext;
    RecordGrows(env, final, r);
    ConsistentPart(env, r.end.Blocks(), r.start.Blocks());
    match r.event
    case NewBlock(hash, prevHash, address) =>
      if hash !in r.start.index {
        InsertFrame(r.start, hash, prevHash, address, r.block, if r.rounds == [] then r.end else r.rounds[0].start);
      }
      if r.rounds != [] {
        CallEnds(env, final, r.block, r.rounds);
        CallReaches(env, final, r.block, r.rounds);
      }
    case Activate =>
      CallEnds(env, final, null, r.rounds);
      CallReaches(env, final, null, r.rounds);
    case Invalidate(hash) =>
      if hash in r.start.index {
        InvalidateUnflags(env, r.start, r.start.index[hash], r.end, r.ok);
      }
    case Reconsider(hash, children) =>
  }

  // The first event at which either happens, or the end.
  lemma {:induction false} UnflaggedUpTo(env: Environment, final: Hash, events: seq<Event>, records: seq<Record>,
                                         m: nat)
    returns (n: nat)
    requires IsRun(env, final, events, records) && 0 < m <= |records|
    requires Consistent(env, records[|records| - 1].end.Blocks())
    requires Unflagged(records[0].start.active, records[0].start.failed)
    ensures n <= m && forall i | 0 <= i < n :: !ShowsFlagged(records[i]) && !Dangerous(env, final, records[i])
    ensures n < m ==> ShowsFlagged(records[n]) && Dangerous(env, final, records[n])
  {
    hide IsRecord, Consistent, Dangerous, Unflagged;
    n := 0;
    if m > 1 {
      n := UnflaggedUpTo(env, final, events, records, m - 1);
    }
    if n == m - 1 {
      RunGrows(env, final, events, records, n, |records| - 1);
      ConsistentPart(env, records[|records| - 1].end.Blocks(), records[n].end.Blocks());
      if n > 0 {
        assert records[n - 1].end == records[n].start && !ShowsFlagged(records[n - 1]);
      }
      RecordReaches(env, final, records[n]);
      n := if ShowsFlagged(records[n]) then n else m;
    }
  }

  // In a run from an unflagged active chain a flagged block is active at some time exactly if some event was
  // dangerous.
  lemma RunReaches(env: Environment, final: Hash, events: seq<Event>, records: seq<Record>)
    requires IsRun(env, final, events, records) && records != []
    requires Consistent(env, records[|records| - 1].end.Blocks())
    requires Unflagged(records[0].start.active, records[0].start.failed)
    ensures (exists i :: 0 <= i < |records| && ShowsFlagged(records[i]))
            <==> (exists i :: 0 <= i < |records| && Dangerous(env, final, records[i]))
  {
    hide IsRecord, Consistent, ShowsFlagged, Dangerous, Unflagged;
    var n := UnflaggedUpTo(env, final, events, records, |records|);
  }
}
