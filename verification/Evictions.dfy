// Which entries the bounded cache has lost, and with them the exact answer of
// every lookup of the block tracker.
module Evictions {
  import opened Widths
  import opened JavaChunks
  import opened RecentStates
  import opened BlockTracking

  // ----- which entries are evicted -------------------------------------------

  // The entries touched more recently than the one at p.
  function Later(r: seq<Entry>, p: BlockPos): nat {
    if r == [] then 0 else if r[0].pos == p then |r| - 1 else Later(r[1..], p)
  }

  // Since p was last put, some put of another position left 32768 others more
  // recent than it.
  predicate Overtaken(ops: seq<CacheOp>, p: BlockPos) {
    ops != []
    && var earlier := ops[..|ops| - 1];
       match ops[|ops| - 1]
       case PutOp(q, _) => q != p && (Overtaken(earlier, p) || Later(RecencyRun(ops), p) >= 32768)
       case GetOp(_) => Overtaken(earlier, p)
       case RemoveChunkOp(_) => Overtaken(earlier, p)
  }

  lemma {:induction false} StateOfConcat(a: seq<Entry>, b: seq<Entry>, p: BlockPos)
    ensures StateOf(a + b, p) == if StateOf(a, p).Some? then StateOf(a, p) else StateOf(b, p)
  {
    if a == [] {
      assert a + b == b;
    } else {
      assert (a + b)[1..] == a[1..] + b;
      StateOfConcat(a[1..], b, p);
    }
  }

  lemma {:induction false} StateOfExcluding(r: seq<Entry>, q: BlockPos, p: BlockPos)
    ensures StateOf(Excluding(r, {q}), p) == if p == q then None else StateOf(r, p)
  {
    if r != [] { StateOfExcluding(r[1..], q, p); }
  }

  lemma StateOfTouch(r: seq<Entry>, q: BlockPos, state: Int32, p: BlockPos)
    ensures StateOf(Touch(r, q, state), p) == if p == q then Some(state) else StateOf(r, p)
  {
    StateOfExcluding(r, q, p);
    StateOfConcat(Excluding(r, {q}), [Entry(q, state)], p);
    assert [Entry(q, state)][1..] == [];
  }

  lemma {:induction false} StateOfOutside(r: seq<Entry>, c: ChunkPos, p: BlockPos)
    ensures StateOf(OutsideChunk(r, c), p) == if ChunkForBlock(p) == c then None else StateOf(r, p)
  {
    hide ChunkForBlock;
    if r != [] { StateOfOutside(r[1..], c, p); }
  }

  // A position is in the recent end exactly when fewer entries than that are
  // more recent; what the recent end knows the whole list knows too.
  lemma {:induction false} InRecentEnd(bounded: seq<Entry>, unbounded: seq<Entry>, p: BlockPos)
    requires RecentEnd(bounded, unbounded) && NoRepeats(unbounded)
    ensures StateOf(bounded, p).Some? ==> StateOf(unbounded, p) == StateOf(bounded, p)
    ensures StateOf(unbounded, p).Some? ==> (StateOf(bounded, p).Some? <==> Later(unbounded, p) < |bounded|)
  {
    if |bounded| == |unbounded| {
      assert bounded == unbounded;
      LaterBound(unbounded, p);
    } else {
      var rest := unbounded[1..];
      assert rest[|rest| - |bounded|..] == bounded;
      InRecentEnd(bounded, rest, p);
      StateOfMember(rest, p);
    }
  }

  lemma {:induction false} LaterBound(r: seq<Entry>, p: BlockPos)
    ensures StateOf(r, p).Some? ==> Later(r, p) < |r|
  {
    if r != [] { LaterBound(r[1..], p); }
  }

  lemma PutKeepsUnless(bounded: seq<Entry>, unbounded: seq<Entry>, q: BlockPos, state: Int32, p: BlockPos)
    requires Mirrors(bounded, unbounded) && p != q && StateOf(unbounded, p).Some?
    ensures StateOf(Put(bounded, q, state), p).Some?
            <==> StateOf(bounded, p).Some? && Later(Touch(unbounded, q, state), p) < MAX_CACHED_STATES
  {
    var touched, after := Touch(bounded, q, state), Touch(unbounded, q, state);
    TouchKeepsRecentEnd(bounded, unbounded, q, state);
    TrimKeepsRecentEnd(touched, after);
    TouchNoRepeats(unbounded, q, state);
    StateOfTouch(bounded, q, state, p);
    StateOfTouch(unbounded, q, state, p);
    hide Touch, RecentEnd, StateOf, NoRepeats;
    InRecentEnd(touched, after, p);
    InRecentEnd(Trim(touched), after, p);
  }

  // After any run, a position that the unbounded list remembers is still in the
  // cache if and only if it was not overtaken.
  lemma {:induction false} EvictedExactly(ops: seq<CacheOp>, p: BlockPos)
    requires StateOf(RecencyRun(ops), p).Some?
    ensures StateOf(CacheRun(ops), p).Some? <==> !Overtaken(ops, p)
  {
    if ops != [] {
      var earlier := ops[..|ops| - 1];
      var bounded, unbounded := CacheRun(earlier), RecencyRun(earlier);
      EvictsLeastRecent(earlier);
      hide Mirrors, Touch, OutsideChunk, StateOf, Trim, Later;
      match ops[|ops| - 1]
      case PutOp(q, state) =>
        PutIsTouched(bounded, q, state);
        StateOfTouch(unbounded, q, state, p);
        if p != q {
          EvictedExactly(earlier, p);
          PutKeepsUnless(bounded, unbounded, q, state, p);
        }
      case GetOp(q) =>
        if StateOf(bounded, q).Some? {
          var state := StateOf(bounded, q).value;
          StateOfTouch(bounded, q, state, p);
          StateOfTouch(unbounded, q, state, p);
          CacheKnows(bounded, unbounded, q);
        }
        EvictedExactly(earlier, p);
      case RemoveChunkOp(c) =>
        StateOfOutside(bounded, c, p);
        StateOfOutside(unbounded, c, p);
        EvictedExactly(earlier, p);
    }
  }

  lemma CacheKnows(bounded: seq<Entry>, unbounded: seq<Entry>, p: BlockPos)
    requires Mirrors(bounded, unbounded)
    ensures StateOf(bounded, p).Some? ==> StateOf(unbounded, p) == StateOf(bounded, p)
  {
    hide RecentEnd, NoRepeats;
    InRecentEnd(bounded, unbounded, p);
  }

  lemma PutIsTouched(bounded: seq<Entry>, q: BlockPos, state: Int32)
    ensures StateOf(Put(bounded, q, state), q).Some?
  {
    var touched := Touch(bounded, q, state);
    var older := touched[..|touched| - |Trim(touched)|];
    assert touched == older + Trim(touched);
    var last := Trim(touched)[|Trim(touched)| - 1];
    assert last == Entry(q, state) && last in Trim(touched);
    StateOfMember(Trim(touched), q);
  }

  // ----- the cache of the tracker ----------------------------------------------

  // What the first n block entities of a chunk put into the cache.
  function LoadOps(chunk: Chunk, minSection: int, n: nat): seq<CacheOp>
    requires n <= |chunk.entities|
  {
    if n == 0 then []
    else
      LoadOps(chunk, minSection, n - 1)
      + match EntityPosition(chunk.pos, chunk.entities[n - 1])
        case None => []
        case Some(p) =>
          match StateAt(chunk, p, minSection)
          case None => []
          case Some(state) => [PutOp(p, state)]
  }

  // The map answers for the position, so the cache is not asked.
  predicate Known(t: Tracker, p: BlockPos) {
    p in t.states && t.states[p] >= 0
  }

  // The cache operations of an event.
  function EventOps(t: Tracker, event: Event): seq<CacheOp> {
    match event
    case Load(chunk, minSection) => LoadOps(chunk, minSection, |chunk.entities|)
    case EntityUpdate(p) => [GetOp(p)]
    case Change(p, state) => [PutOp(p, state)]
    case Query(p) => if Known(t, p) then [] else [GetOp(p)]
    case Forget(c) => [RemoveChunkOp(c)]
  }

  function RunOps(t: Tracker, events: seq<Event>): seq<CacheOp>
    decreases |events|
  {
    if events == [] then [] else EventOps(t, events[0]) + RunOps(Step(t, events[0]), events[1..])
  }

  function RecordOp(last: Record, op: CacheOp): Record {
    match op
    case PutOp(p, state) => last[p := state]
    case GetOp(_) => last
    case RemoveChunkOp(c) => map p | p in last && ChunkForBlock(p) != c :: last[p]
  }

  // The operations so far account for the cache and for the record.
  ghost predicate Accounts(ops: seq<CacheOp>, cache: seq<Entry>, last: Record) {
    && cache == CacheRun(ops)
    && forall p :: StateOf(RecencyRun(ops), p) == if p in last then Some(last[p]) else None
  }

  lemma OneMoreOp(ops: seq<CacheOp>, cache: seq<Entry>, last: Record, op: CacheOp)
    requires Accounts(ops, cache, last)
    ensures Accounts(ops + [op], CacheStep(cache, op), RecordOp(last, op))
  {
    hide StateOf, Touch, OutsideChunk, ChunkForBlock, Mirrors;
    assert (ops + [op])[..|ops|] == ops;
    EvictsLeastRecent(ops);
    var bounded, unbounded := CacheRun(ops), RecencyRun(ops);
    forall p
      ensures StateOf(RecencyRun(ops + [op]), p)
              == if p in RecordOp(last, op) then Some(RecordOp(last, op)[p]) else None
    {
      match op
      case PutOp(q, state) => StateOfTouch(unbounded, q, state, p);
      case GetOp(q) =>
        CacheKnows(bounded, unbounded, q);
        if StateOf(bounded, q).Some? { StateOfTouch(unbounded, q, StateOf(bounded, q).value, p); }
      case RemoveChunkOp(c) => StateOfOutside(unbounded, c, p);
    }
  }

  lemma {:induction false} LoadAccounts(ops: seq<CacheOp>, t: Tracker, last: Record, chunk: Chunk, minSection: int,
                                        n: nat)
    requires Accounts(ops, t.cache, last) && chunk.pos in t.chunks && n <= |chunk.entities|
    ensures Accounts(ops + LoadOps(chunk, minSection, n), LoadEntities(t, chunk, minSection, n).cache,
                     RecordEntities(last, chunk, minSection, n))
  {
    hide Accounts, StateAt, EntityPosition, Put;
    if n == 0 {
      assert ops + [] == ops;
    } else {
      LoadAccounts(ops, t, last, chunk, minSection, n - 1);
      var before := ops + LoadOps(chunk, minSection, n - 1);
      var p := EntityPosition(chunk.pos, chunk.entities[n - 1]);
      if p.Some? && StateAt(chunk, p.value, minSection).Some? {
        var op := PutOp(p.value, StateAt(chunk, p.value, minSection).value);
        OneMoreOp(before, LoadEntities(t, chunk, minSection, n - 1).cache,
                  RecordEntities(last, chunk, minSection, n - 1), op);
        assert ops + LoadOps(chunk, minSection, n) == before + [op];
      } else {
        assert ops + LoadOps(chunk, minSection, n) == before;
      }
    }
  }

  lemma EventAccounts(ops: seq<CacheOp>, t: Tracker, last: Record, event: Event)
    requires Accounts(ops, t.cache, last)
    ensures Accounts(ops + EventOps(t, event), Step(t, event).cache, RecordStep(last, event))
  {
    hide Accounts, Put, Get, OutsideChunk, LoadOps, ChunkForBlock;
    assert ops + [] == ops;
    match event
    case Load(chunk, minSection) =>
      LoadAccounts(ops, StartChunk(t, chunk.pos), last, chunk, minSection, |chunk.entities|);
    case EntityUpdate(p) => OneMoreOp(ops, t.cache, last, GetOp(p));
    case Change(p, state) => OneMoreOp(ops, t.cache, last, PutOp(p, state));
    case Query(p) => OneMoreOp(ops, t.cache, last, GetOp(p));
    case Forget(c) => OneMoreOp(ops, t.cache, last, RemoveChunkOp(c));
  }

  lemma {:induction false} RunAccounts(ops: seq<CacheOp>, t: Tracker, last: Record, events: seq<Event>)
    requires Accounts(ops, t.cache, last)
    ensures Accounts(ops + RunOps(t, events), Run(t, events).cache, RecordRun(last, events))
    decreases |events|
  {
    hide Accounts, Step, EventOps, RecordStep;
    if events == [] {
      assert ops + [] == ops;
    } else {
      var ops' := ops + EventOps(t, events[0]);
      EventAccounts(ops, t, last, events[0]);
      RunAccounts(ops', Step(t, events[0]), RecordStep(last, events[0]), events[1..]);
      assert ops + RunOps(t, events) == ops' + RunOps(Step(t, events[0]), events[1..]);
    }
  }

  // ----- the main results ----------------------------------------------------

  // The tracker's cache is the bounded cache after the operations that its
  // events perform, so what is proved of every run of the cache holds of it.
  lemma TrackerRunsTheCache(events: seq<Event>)
    ensures Run(EMPTY, events).cache == CacheRun(RunOps(EMPTY, events))
    ensures Mirrors(Run(EMPTY, events).cache, RecencyRun(RunOps(EMPTY, events)))
  {
    RunAccounts([], EMPTY, map[], events);
    assert [] + RunOps(EMPTY, events) == RunOps(EMPTY, events);
    EvictsLeastRecent(RunOps(EMPTY, events));
  }

  // After every run, the cache holds a position if and only if something was
  // recorded for it and it was not overtaken; it has the state recorded last.
  lemma CacheExact(events: seq<Event>, p: BlockPos)
    ensures var last := RecordRun(map[], events);
            StateOf(Run(EMPTY, events).cache, p)
            == if p in last && !Overtaken(RunOps(EMPTY, events), p) then Some(last[p]) else None
  {
    var ops := RunOps(EMPTY, events);
    RunAccounts([], EMPTY, map[], events);
    assert [] + ops == ops;
    EvictsLeastRecent(ops);
    hide StateOf, Overtaken, Mirrors, RunOps, CacheRun, RecencyRun, Run, RecordRun;
    CacheKnows(CacheRun(ops), RecencyRun(ops), p);
    if StateOf(RecencyRun(ops), p).Some? { EvictedExactly(ops, p); }
  }

  // After every run, a lookup answers with the state recorded last if and only
  // if there is one, it is valid, and the position is known to the map or was
  // not overtaken by 32768 others.
  lemma LookupExact(events: seq<Event>, p: BlockPos)
    requires forall e | e in events :: WellFormed(e)
    ensures var t, last := Run(EMPTY, events), RecordRun(map[], events);
            CachedState(t, p).0
            == if p in last && last[p] >= 0 && (Known(t, p) || !Overtaken(RunOps(EMPTY, events), p))
               then Some(last[p]) else None
  {
    RunConsistent(EMPTY, map[], events);
    CacheExact(events, p);
    hide StateOf, Overtaken, RunOps, Run, RecordRun, Indexed;
  }
}
