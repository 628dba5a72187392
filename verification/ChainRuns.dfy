// Runs of the chain state, and one in which an invalidated block becomes active.

module ChainRuns {
  import opened BlockTree
  import opened BlockChain
  import opened SelectionRules
  import opened Activation
  import opened ActivationLaws
  import opened ChainEvents
  import opened ChainSelection

  // Entries get addresses that no live entry has.
  ghost predicate FreshAddresses(blocks: set<BlockIndex>, events: seq<Event>) {
    && (forall i | 0 <= i < |events| && events[i].NewBlock? :: forall c <- blocks :: c.address != events[i].address)
    && (forall i, j | 0 <= i < j < |events| && events[i].NewBlock? && events[j].NewBlock? ::
          events[i].address != events[j].address)
  }

  lemma LaterAddressesFresh(blocks: set<BlockIndex>, events: seq<Event>, i: nat, blocks': set<BlockIndex>)
    requires i < |events| && FreshAddresses(blocks, events[i..])
    requires forall c <- blocks' - blocks :: events[i].NewBlock? && c.address == events[i].address
    ensures events[i].NewBlock? ==> forall c <- blocks :: c.address != events[i].address
    ensures FreshAddresses(blocks', events[i + 1..])
  {
  }

  // The run leads from one state to another.
  ghost predicate LeadsTo(env: Environment, final: Hash, start: State, events: seq<Event>, records: seq<Record>,
                          last: State)
  {
    && IsRun(env, final, events, records)
    && if records == [] then last == start else records[0].start == start && records[|records| - 1].end == last
  }

  lemma NothingRun(env: Environment, final: Hash, start: State)
    ensures LeadsTo(env, final, start, [], [], start)
  {
  }

  lemma RunGoesOn(env: Environment, final: Hash, start: State, events: seq<Event>, i: nat, records: seq<Record>,
                  record: Record)
    requires i < |events| && LeadsTo(env, final, start, events[..i], records, record.start)
    requires IsRecord(env, final, record) && record.event == events[i]
    ensures |records| == i && LeadsTo(env, final, start, events[..i + 1], records + [record], record.end)
  {
    hide IsRecord;
  }

  // One event, with its record; not ok stands for a failing write that leaves candidates and flags apart.
  method Handle(s: ChainState, event: Event) returns (ok: bool, ghost record: Record)
    requires s.Valid() && s.CandidatesExact()
    requires event.NewBlock? ==> forall c <- s.blocks :: c.address != event.address
    modifies s`mapBlockIndex, s`setBlockIndexValid, s`nextSequenceId, s`blocks, s`asked, s`localFinIndex, s`writes
    modifies s.chainActive, s.chainMostWork, s.blocks
    ensures s.Valid() && fresh(s.blocks - old(s.blocks))
    ensures forall c <- s.blocks - old(s.blocks) :: event.NewBlock? && c.address == event.address
    ensures record.event == event && record.start == old(s.Snapshot()) && record.end == s.Snapshot()
    ensures if ok then s.CandidatesExact() && IsRecord(s.env, s.globalFinHash, record)
            else Breaks(s.env, record.start, event, record.end)
  {
    hide Linked, Ancestor, IsPath, Tree, SkipsBuiltIn, IsCall, InvalidateStep, ReconsiderStep, InvalidateBreaks,
         ReconsiderBreaks;
    ok := true;
    ghost var start := s.Snapshot();
    s.SnapshotIsWellFormed();
    match event {
      case NewBlock(hash, prevHash, address) =>
        var _, b, rounds := s.AddToBlockIndex(hash, prevHash, address);
        s.SnapshotIsWellFormed();
        record := Record(start, event, b, rounds, true, s.Snapshot());
      case Activate =>
        var _, _, rounds := s.ActivateBestChain(null);
        s.SnapshotIsWellFormed();
        record := Record(start, event, null, rounds, true, s.Snapshot());
      case Invalidate(hash) =>
        var r := Invalidated;
        if hash in s.mapBlockIndex {
          r := s.InvalidateBlock(s.mapBlockIndex[hash]);
        }
        ok := r != InvalidateResult.NotWritten;
        s.SnapshotIsWellFormed();
        record := Record(start, event, null, [], r == Invalidated, s.Snapshot());
      case Reconsider(hash, children) =>
        if hash in s.mapBlockIndex {
          ghost var stray;
          ok, stray := s.ReconsiderBlock(s.mapBlockIndex[hash], children);
        }
        s.SnapshotIsWellFormed();
        record := Record(start, event, null, [], true, s.Snapshot());
    }
  }

  // A run of events, with the record of each, up to a failing write of InvalidateBlock or ReconsiderBlock. The
  // ghost result is the state before the first event without a record.
  method Replay(s: ChainState, events: seq<Event>) returns (ghost records: seq<Record>, ghost last: State)
    requires s.Valid() && s.CandidatesExact() && FreshAddresses(s.blocks, events)
    modifies s`mapBlockIndex, s`setBlockIndexValid, s`nextSequenceId, s`blocks, s`asked, s`localFinIndex, s`writes
    modifies s.chainActive, s.chainMostWork, s.blocks
    ensures s.Valid() && |records| <= |events|
    ensures LeadsTo(s.env, s.globalFinHash, old(s.Snapshot()), events[..|records|], records, last)
    ensures if |records| == |events| then s.CandidatesExact() && last == s.Snapshot()
            else Breaks(s.env, last, events[|records|], s.Snapshot())
  {
    hide IsRecord, LeadsTo, FreshAddresses, Breaks;
    ghost var start := s.Snapshot();
    records, last := [], start;
    NothingRun(s.env, s.globalFinHash, start);
    assert events[..0] == [] && events[0..] == events;
    for i := 0 to |events|
      invariant s.Valid() && s.CandidatesExact() && FreshAddresses(s.blocks, events[i..])
      invariant fresh(s.blocks - old(s.blocks))
      invariant |records| == i && last == s.Snapshot()
      invariant LeadsTo(s.env, s.globalFinHash, start, events[..i], records, last)
    {
      ghost var blocks := s.blocks;
      LaterAddressesFresh(blocks, events, i, blocks);
      ghost var record;
      var ok;
      ok, record := Handle(s, events[i]);
      if !ok {
        return;
      }
      LaterAddressesFresh(blocks, events, i, s.blocks);
      RunGoesOn(s.env, s.globalFinHash, start, events, i, records, record);
      records, last := records + [record], record.end;
    }
    assert events[..|events|] == events;
  }
}
